/** The heap operations of nsdynmemLIB.c on abstract states, and what they promise over whole runs.

    `h` is HOLE_T_SIZE, the words of a hole descriptor. Sizes in statistics are bytes. */
module HeapModel {
  import opened HeapBlocks

  const REGION_COUNT := 3
  const NULL := 0

  /** A heap word, ns_mem_word_size_t, has 4 bytes. */
  function Bytes(words: int): int { 4 * words }

  /** The uint32_t counters wrap around. */
  function Wrap32(n: int): int { n % 0x1_0000_0000 }

  datatype Stats = Stats(sectorSize: int, allocCnt: int, allocatedBytes: int, allocatedBytesMax: int,
                         allocTotalBytes: int, allocFailCnt: int)

  datatype State = State(regions: seq<Region>, blocks: seq<Block>, heapSize: int, tempLimit: int, stats: Stats)

  // ----- Totals

  datatype Totals = Totals(liveCount: int, liveWords: int, freeWords: int) {
    function Plus(t: Totals): Totals {
      Totals(liveCount + t.liveCount, liveWords + t.liveWords, freeWords + t.freeWords)
    }
  }

  function Weigh(b: Block): Totals {
    if b.live then Totals(1, b.Words(), 0) else Totals(0, 0, b.Words())
  }

  function Total(bs: seq<Block>): Totals {
    if bs == [] then Totals(0, 0, 0) else Weigh(bs[0]).Plus(Total(bs[1..]))
  }

  lemma {:induction false} TotalConcat(a: seq<Block>, b: seq<Block>)
    ensures Total(a + b) == Total(a).Plus(Total(b))
  {
    if a == [] {
      assert a + b == b;
    } else {
      var c := a + b;
      assert c[0] == a[0] && c[1..] == a[1..] + b;
      TotalConcat(a[1..], b);
    }
  }

  lemma TotalSmall(a: Block, b: Block)
    ensures Total([a]) == Weigh(a)
    ensures Total([a, b]) == Weigh(a).Plus(Weigh(b))
  {
    assert [a][1..] == [] && [a, b][1..] == [b] && [b][1..] == [];
  }

  lemma TotalSplice(bs: seq<Block>, i: int, j: int, mid: seq<Block>)
    requires 0 <= i <= j <= |bs|
    ensures Total(Splice(bs, i, j, mid)) == Total(bs[..i]).Plus(Total(mid)).Plus(Total(bs[j..]))
    ensures Total(bs) == Total(bs[..i]).Plus(Total(bs[i..j])).Plus(Total(bs[j..]))
  {
    TotalConcat(bs[..i] + mid, bs[j..]);
    TotalConcat(bs[..i], mid);
    assert bs == bs[..i] + bs[i..j] + bs[j..];
    TotalConcat(bs[..i] + bs[i..j], bs[j..]);
    TotalConcat(bs[..i], bs[i..j]);
  }

  lemma {:induction false} TotalBounds(bs: seq<Block>)
    requires forall i :: 0 <= i < |bs| ==> bs[i].size >= 1
    ensures Total(bs).liveCount >= 0 && Total(bs).liveWords >= 3 * Total(bs).liveCount && Total(bs).freeWords >= 0
    ensures Total(bs).liveCount == 0 ==> forall i :: 0 <= i < |bs| ==> !bs[i].live
  {
    if bs != [] {
      TotalBounds(bs[1..]);
      assert forall i :: 1 <= i < |bs| ==> bs[i] == bs[1..][i - 1];
    }
  }

  // ----- Invariant

  predicate DisjointRegions(a: Region, b: Region) {
    a.hi < b.lo || b.hi < a.lo
  }

  ghost predicate RegionsOk(rs: seq<Region>, h: nat) {
    && 1 <= |rs| <= REGION_COUNT
    && (forall r :: 0 <= r < |rs| ==> 0 < rs[r].lo && rs[r].hi - rs[r].lo + 1 >= h + 2)
    && (forall q, r :: 0 <= q < r < |rs| ==> DisjointRegions(rs[q], rs[r]))
  }

  /** What every reachable heap satisfies. */
  ghost predicate Inv(s: State, h: nat) {
    && h >= 1
    && RegionsOk(s.regions, h)
    && Tiled(s.regions, s.blocks)
    && Coalesced(s.blocks)
    && s.heapSize == Bytes(Total(s.blocks).liveWords + Total(s.blocks).freeWords)
    && s.stats.sectorSize == s.heapSize
    && s.stats.allocCnt == Total(s.blocks).liveCount
    && s.stats.allocatedBytes == Bytes(Total(s.blocks).liveWords)
    && s.stats.allocatedBytes <= s.stats.allocatedBytesMax
  }

  // ----- Allocation

  /** The data words a request of n bytes needs. */
  function DataWords(n: nat): nat {
    (n + 3) / 4
  }

  predicate Fits(b: Block, need: nat, h: nat) {
    IsHole(b, h) && b.size >= need
  }

  function FirstFit(bs: seq<Block>, need: nat, h: nat): (i: int)
    ensures -1 <= i < |bs|
    ensures i >= 0 ==> Fits(bs[i], need, h)
    ensures forall k :: 0 <= k < (if i >= 0 then i else |bs|) ==> !Fits(bs[k], need, h)
  {
    if bs == [] then -1
    else if Fits(bs[0], need, h) then 0
    else
      var i := FirstFit(bs[1..], need, h);
      assert forall k :: 1 <= k < |bs| ==> bs[k] == bs[1..][k - 1];
      if i < 0 then -1 else i + 1
  }

  function LastFit(bs: seq<Block>, need: nat, h: nat): (i: int)
    ensures -1 <= i < |bs|
    ensures i >= 0 ==> Fits(bs[i], need, h)
    ensures forall k :: i < k < |bs| ==> !Fits(bs[k], need, h)
  {
    if bs == [] then -1
    else if Fits(bs[|bs| - 1], need, h) then |bs| - 1
    else LastFit(bs[..|bs| - 1], need, h)
  }

  function FitIndex(bs: seq<Block>, need: nat, h: nat, temporary: bool): int {
    if temporary then FirstFit(bs, need, h) else LastFit(bs, need, h)
  }

  /** What becomes of a chosen hole: split if the rest can be a hole again, else used whole. */
  function Carve(b: Block, need: nat, h: nat, temporary: bool): seq<Block> {
    if b.size >= need + 2 + h then
      var rest := b.size - need - 2;
      if temporary then
        [Block(b.start, need, true, b.region), Block(b.start + need + 2, rest, false, b.region)]
      else
        [Block(b.start, rest, false, b.region), Block(b.start + rest + 2, need, true, b.region)]
    else
      [b.(live := true)]
  }

  /** The part of the chosen hole that is handed out. */
  function Carved(b: Block, need: nat, h: nat, temporary: bool): Block {
    var c := Carve(b, need, h, temporary);
    if |c| == 2 && !temporary then c[1] else c[0]
  }

  function CountAlloc(st: Stats, bytes: int): Stats {
    var now := st.allocatedBytes + bytes;
    st.(allocCnt := st.allocCnt + 1,
        allocatedBytes := now,
        allocatedBytesMax := if st.allocatedBytesMax < now then now else st.allocatedBytesMax,
        allocTotalBytes := Wrap32(st.allocTotalBytes + bytes))
  }

  function CountFail(st: Stats): Stats {
    st.(allocFailCnt := Wrap32(st.allocFailCnt + 1))
  }

  function CountFree(st: Stats, bytes: int): Stats {
    st.(allocCnt := st.allocCnt - 1, allocatedBytes := st.allocatedBytes - bytes)
  }

  /** ns_mem_internal_alloc: the new state and the payload address, or NULL. */
  function Alloc(s: State, h: nat, n: nat, temporary: bool): (State, int) {
    var need := DataWords(n);
    var i := FitIndex(s.blocks, need, h, temporary);
    if (temporary && s.stats.allocatedBytes > s.tempLimit) || need == 0 || i < 0 then
      (s.(stats := CountFail(s.stats)), NULL)
    else
      var b := Carved(s.blocks[i], need, h, temporary);
      (s.(blocks := Splice(s.blocks, i, i + 1, Carve(s.blocks[i], need, h, temporary)),
          stats := CountAlloc(s.stats, Bytes(b.Words()))),
       b.start + 1)
  }

  lemma FitInRange(bs: seq<Block>, need: nat, h: nat, temporary: bool)
    ensures -1 <= FitIndex(bs, need, h, temporary) < |bs|
    ensures FitIndex(bs, need, h, temporary) >= 0 ==> Fits(bs[FitIndex(bs, need, h, temporary)], need, h)
    ensures FitIndex(bs, need, h, temporary) >= 0 <==> exists i :: 0 <= i < |bs| && Fits(bs[i], need, h)
  {
  }

  /** The holes at list positions from..to are all too small. */
  ghost predicate Skipped(bs: seq<Block>, need: nat, h: nat, from: int, to: int) {
    forall k :: 0 <= k < |Holes(bs, h)| && from <= k < to ==> bs[HoleIndex(bs, h, k)].size < need
  }

  lemma SkipOne(bs: seq<Block>, need: nat, h: nat, k: int)
    requires 0 <= k < |Holes(bs, h)| && bs[HoleIndex(bs, h, k)].size < need
    ensures Skipped(bs, need, h, 0, k) ==> Skipped(bs, need, h, 0, k + 1)
    ensures Skipped(bs, need, h, k + 1, |Holes(bs, h)|) ==> Skipped(bs, need, h, k, |Holes(bs, h)|)
  {
  }

  /** Positions in the hole list and in the block list are ordered alike. */
  lemma SamePosition(bs: seq<Block>, h: nat, k: int, l: int)
    requires 0 <= k < |Holes(bs, h)| && 0 <= l < |Holes(bs, h)|
    ensures k < l <==> HoleIndex(bs, h, k) < HoleIndex(bs, h, l)
    ensures k == l <==> HoleIndex(bs, h, k) == HoleIndex(bs, h, l)
  {
    if l < k {
      HoleIndexMonotone(bs, h, l, k);
    } else if k < l {
      HoleIndexMonotone(bs, h, k, l);
    }
  }

  /** A walk over the hole list from either end that stops at position k has found the fitting block. */
  lemma WalkFindsFit(bs: seq<Block>, need: nat, h: nat, temporary: bool, k: int)
    requires 0 <= k < |Holes(bs, h)| && bs[HoleIndex(bs, h, k)].size >= need
    requires if temporary then Skipped(bs, need, h, 0, k) else Skipped(bs, need, h, k + 1, |Holes(bs, h)|)
    ensures FitIndex(bs, need, h, temporary) == HoleIndex(bs, h, k)
  {
    var f := FitIndex(bs, need, h, temporary);
    assert Fits(bs[HoleIndex(bs, h, k)], need, h);
    HoleIndexOf(bs, h, f);
    SamePosition(bs, h, k, |Holes(bs[..f], h)|);
  }

  lemma WalkFindsNone(bs: seq<Block>, need: nat, h: nat, temporary: bool)
    requires Skipped(bs, need, h, 0, |Holes(bs, h)|)
    ensures FitIndex(bs, need, h, temporary) == -1
  {
    var f := FitIndex(bs, need, h, temporary);
    if f >= 0 {
      HoleIndexOf(bs, h, f);
    }
  }

  /** A carved hole covers the words of the hole it came from. */
  lemma CarveSpan(rs: seq<Region>, bs: seq<Block>, i: int, need: nat, h: nat, temporary: bool)
    requires Tiled(rs, bs) && 0 <= i < |bs| && Fits(bs[i], need, h) && need >= 1 && h >= 1
    ensures SameSpan(bs, i, i + 1, Carve(bs[i], need, h, temporary))
    ensures Coalesced(Carve(bs[i], need, h, temporary))
    ensures var t := Total(Carve(bs[i], need, h, temporary));
            && t.liveCount == 1
            && t.liveWords == Carved(bs[i], need, h, temporary).Words()
            && t.liveWords + t.freeWords == bs[i].Words()
  {
    assert WellPlaced(rs, bs[i]);
    assert bs[i..i + 1] == [bs[i]];
    var c := Carve(bs[i], need, h, temporary);
    TotalSmall(c[0], if |c| == 2 then c[1] else c[0]);
    if |c| == 2 {
      assert c == [c[0], c[1]];
      assert Contiguous(c[0], c[1]);
    } else {
      assert c == [c[0]];
    }
  }

  lemma CarveTotal(rs: seq<Region>, bs: seq<Block>, i: int, need: nat, h: nat, temporary: bool)
    requires Tiled(rs, bs) && 0 <= i < |bs| && Fits(bs[i], need, h) && need >= 1 && h >= 1
    ensures var w := Carved(bs[i], need, h, temporary).Words();
            Total(Splice(bs, i, i + 1, Carve(bs[i], need, h, temporary))) == Total(bs).Plus(Totals(1, w, -w))
  {
    CarveSpan(rs, bs, i, need, h, temporary);
    TotalSplice(bs, i, i + 1, Carve(bs[i], need, h, temporary));
    assert bs[i..i + 1] == [bs[i]];
    TotalSmall(bs[i], bs[i]);
  }

  lemma CarveTiled(rs: seq<Region>, bs: seq<Block>, i: int, need: nat, h: nat, temporary: bool)
    requires Tiled(rs, bs) && Coalesced(bs) && 0 <= i < |bs| && Fits(bs[i], need, h) && need >= 1 && h >= 1
    ensures Tiled(rs, Splice(bs, i, i + 1, Carve(bs[i], need, h, temporary)))
    ensures Coalesced(Splice(bs, i, i + 1, Carve(bs[i], need, h, temporary)))
  {
    var c := Carve(bs[i], need, h, temporary);
    CarveSpan(rs, bs, i, need, h, temporary);
    SpliceTiled(rs, bs, i, i + 1, c);
    assert i > 0 ==> Separated(bs, i - 1);
    assert i + 1 < |bs| ==> Separated(bs, i);
    SpliceCoalesced(rs, bs, i, i + 1, c);
  }

  lemma AllocShape(s: State, h: nat, n: nat, temporary: bool) returns (i: int, b: Block)
    requires Alloc(s, h, n, temporary).1 != NULL
    ensures 0 <= i < |s.blocks| && Fits(s.blocks[i], DataWords(n), h) && DataWords(n) >= 1
    ensures b == Carved(s.blocks[i], DataWords(n), h, temporary)
    ensures Alloc(s, h, n, temporary) ==
            (s.(blocks := Splice(s.blocks, i, i + 1, Carve(s.blocks[i], DataWords(n), h, temporary)),
                stats := CountAlloc(s.stats, Bytes(b.Words()))), b.start + 1)
  {
    i := FitIndex(s.blocks, DataWords(n), h, temporary);
    b := Carved(s.blocks[i], DataWords(n), h, temporary);
  }

  /** What an implementation has to reach: the blocks, the statistics and the result of an allocation. */
  lemma AllocWith(s: State, h: nat, n: nat, temporary: bool, need: nat, i: int, bs: seq<Block>, st: Stats, p: int)
    requires !(temporary && s.stats.allocatedBytes > s.tempLimit) && need == DataWords(n)
    requires need >= 1 ==> i == FitIndex(s.blocks, need, h, temporary) < |s.blocks|
    requires if need == 0 || i < 0 then bs == s.blocks && st == CountFail(s.stats) && p == NULL
             else var b := Carved(s.blocks[i], need, h, temporary);
                  && bs == Splice(s.blocks, i, i + 1, Carve(s.blocks[i], need, h, temporary))
                  && st == CountAlloc(s.stats, Bytes(b.Words())) && p == b.start + 1
    ensures Alloc(s, h, n, temporary) == (s.(blocks := bs, stats := st), p)
  {
  }

  /** The address of an allocation is never NULL, so NULL means refused. */
  lemma AllocRefused(s: State, h: nat, n: nat, temporary: bool)
    requires Inv(s, h) && Alloc(s, h, n, temporary).1 == NULL
    ensures Alloc(s, h, n, temporary).0 == s.(stats := CountFail(s.stats))
  {
    var i := FitIndex(s.blocks, DataWords(n), h, temporary);
    if i >= 0 {
      assert WellPlaced(s.regions, s.blocks[i]);
    }
  }

  lemma AllocKeepsInv(s: State, h: nat, n: nat, temporary: bool)
    requires Inv(s, h)
    ensures Inv(Alloc(s, h, n, temporary).0, h)
  {
    if Alloc(s, h, n, temporary).1 == NULL {
      AllocRefused(s, h, n, temporary);
    } else {
      var i, b := AllocShape(s, h, n, temporary);
      CarveTiled(s.regions, s.blocks, i, DataWords(n), h, temporary);
      CarveTotal(s.regions, s.blocks, i, DataWords(n), h, temporary);
      CarvedInv(s, h, Splice(s.blocks, i, i + 1, Carve(s.blocks[i], DataWords(n), h, temporary)), b.Words());
    }
  }

  /** The invariant after w free words have become one live block. */
  lemma CarvedInv(s: State, h: nat, bs: seq<Block>, w: int)
    requires Inv(s, h) && Tiled(s.regions, bs) && Coalesced(bs)
    requires Total(bs) == Total(s.blocks).Plus(Totals(1, w, -w))
    ensures Inv(s.(blocks := bs, stats := CountAlloc(s.stats, Bytes(w))), h)
  {
  }

  /** Allocation succeeds exactly when some free block is large enough for the request and for a
      descriptor (and, for a temporary one, the heap is not fuller than its limit allows). */
  lemma AllocSucceeds(s: State, h: nat, n: nat, temporary: bool)
    requires Inv(s, h)
    ensures Alloc(s, h, n, temporary).1 != NULL <==>
            && n >= 1
            && (temporary ==> s.stats.allocatedBytes <= s.tempLimit)
            && exists i :: 0 <= i < |s.blocks| && !s.blocks[i].live && s.blocks[i].size >= h && Bytes(s.blocks[i].size) >= n
  {
    var need := DataWords(n);
    forall i | 0 <= i < |s.blocks|
      ensures Fits(s.blocks[i], need, h) <==> !s.blocks[i].live && s.blocks[i].size >= h && Bytes(s.blocks[i].size) >= n
      ensures s.blocks[i].start > 0
    {
      assert WellPlaced(s.regions, s.blocks[i]);
    }
    FitInRange(s.blocks, need, h, temporary);
    if i :| 0 <= i < |s.blocks| && !s.blocks[i].live && s.blocks[i].size >= h && Bytes(s.blocks[i].size) >= n {
      assert Fits(s.blocks[i], need, h);
    }
  }

  /** Where a successful allocation is placed and what it leaves: a temporary one at the bottom of the
      lowest fitting hole, any other at the top of the highest one, never with 2 + h or more words
      too many. A refused one changes nothing but the failure count. */
  lemma AllocPlacement(s: State, h: nat, n: nat, temporary: bool)
    requires Inv(s, h)
    ensures var (s', p) := Alloc(s, h, n, temporary);
            if p == NULL then
              s' == s.(stats := s.stats.(allocFailCnt := s'.stats.allocFailCnt))
            else
              exists i, j :: 0 <= i < |s.blocks| && 0 <= j < |s'.blocks|
                && Fits(s.blocks[i], DataWords(n), h)
                && (forall k :: 0 <= k < |s.blocks| && (if temporary then k < i else k > i) ==> !Fits(s.blocks[k], DataWords(n), h))
                && s'.blocks[j].live && s'.blocks[j].start + 1 == p
                && (if temporary then s'.blocks[j].start == s.blocks[i].start else s'.blocks[j].Last() == s.blocks[i].Last())
                && DataWords(n) <= s'.blocks[j].size < DataWords(n) + 2 + h
  {
    var (s', p) := Alloc(s, h, n, temporary);
    var need := DataWords(n);
    var i := FitIndex(s.blocks, need, h, temporary);
    if p != NULL {
      var c := Carve(s.blocks[i], need, h, temporary);
      var j := if |c| == 2 && !temporary then i + 1 else i;
      SpliceAt(s.blocks, i, i + 1, c, j);
      assert s'.blocks[j] == Carved(s.blocks[i], need, h, temporary);
    } else if i >= 0 {
      assert WellPlaced(s.regions, s.blocks[i]);
    }
  }

  // ----- Freeing

  function BlockAt(bs: seq<Block>, a: int): (i: int)
    ensures -1 <= i < |bs|
    ensures i >= 0 ==> bs[i].start == a
    ensures i < 0 ==> forall k :: 0 <= k < |bs| ==> bs[k].start != a
  {
    if bs == [] then -1
    else if bs[|bs| - 1].start == a then |bs| - 1
    else BlockAt(bs[..|bs| - 1], a)
  }

  function MergeFrom(bs: seq<Block>, i: int): int
    requires 0 <= i < |bs|
  {
    if i > 0 && Contiguous(bs[i - 1], bs[i]) && !bs[i - 1].live then i - 1 else i
  }

  function MergeTo(bs: seq<Block>, i: int): int
    requires 0 <= i < |bs|
  {
    if i + 1 < |bs| && Contiguous(bs[i], bs[i + 1]) && !bs[i + 1].live then i + 2 else i + 1
  }

  function Merged(bs: seq<Block>, i: int): Block
    requires 0 <= i < |bs|
  {
    var first, last := bs[MergeFrom(bs, i)], bs[MergeTo(bs, i) - 1];
    Block(first.start, last.Last() - first.start - 1, false, bs[i].region)
  }

  function FreeBlocks(bs: seq<Block>, i: int): seq<Block>
    requires 0 <= i < |bs|
  {
    Splice(bs, MergeFrom(bs, i), MergeTo(bs, i), [Merged(bs, i)])
  }

  datatype FreeOutcome = Nothing | NotValid | DoubleFree | Freed

  /** ns_mem_free of payload address p. */
  function Free(s: State, p: int): (State, FreeOutcome) {
    var i := BlockAt(s.blocks, p - 1);
    if p == NULL then (s, Nothing)
    else if i < 0 then (s, NotValid)
    else if !s.blocks[i].live then (s, DoubleFree)
    else
      (s.(blocks := FreeBlocks(s.blocks, i), stats := CountFree(s.stats, Bytes(s.blocks[i].Words()))), Freed)
  }

  lemma RunOf(bs: seq<Block>, i: int)
    requires 0 <= i < |bs|
    ensures bs[MergeFrom(bs, i)..MergeTo(bs, i)] ==
            (if MergeFrom(bs, i) < i then [bs[i - 1]] else []) + [bs[i]] + (if MergeTo(bs, i) > i + 1 then [bs[i + 1]] else [])
  {
  }

  lemma MergeSpan(rs: seq<Region>, bs: seq<Block>, i: int)
    requires Tiled(rs, bs) && 0 <= i < |bs| && bs[i].live
    ensures SameSpan(bs, MergeFrom(bs, i), MergeTo(bs, i), [Merged(bs, i)])
  {
    var lo, hi := MergeFrom(bs, i), MergeTo(bs, i);
    assert WellPlaced(rs, bs[i]) && WellPlaced(rs, bs[lo]) && WellPlaced(rs, bs[hi - 1]);
    RunOf(bs, i);
  }

  lemma TotalBelow(bs: seq<Block>, i: int)
    requires 0 <= i < |bs| && bs[i].live
    ensures Total(bs[MergeFrom(bs, i)..i]) == Totals(0, 0, bs[i].start - bs[MergeFrom(bs, i)].start)
  {
    if MergeFrom(bs, i) < i {
      assert bs[i - 1..i] == [bs[i - 1]];
      TotalSmall(bs[i - 1], bs[i - 1]);
    }
  }

  lemma TotalAbove(bs: seq<Block>, i: int)
    requires 0 <= i < |bs| && bs[i].live
    ensures Total(bs[i + 1..MergeTo(bs, i)]) == Totals(0, 0, bs[MergeTo(bs, i) - 1].Last() - bs[i].Last())
  {
    if MergeTo(bs, i) > i + 1 {
      assert bs[i + 1..i + 2] == [bs[i + 1]];
      TotalSmall(bs[i + 1], bs[i + 1]);
    }
  }

  lemma MergeTotal(bs: seq<Block>, i: int)
    requires 0 <= i < |bs| && bs[i].live
    ensures Total(bs[MergeFrom(bs, i)..MergeTo(bs, i)]) ==
            Totals(1, bs[i].Words(), Merged(bs, i).Words() - bs[i].Words())
  {
    var lo, hi := MergeFrom(bs, i), MergeTo(bs, i);
    TotalBelow(bs, i);
    TotalAbove(bs, i);
    TotalConcat(bs[lo..i], [bs[i]]);
    TotalConcat(bs[lo..i] + [bs[i]], bs[i + 1..hi]);
    TotalSmall(bs[i], bs[i]);
    assert bs[lo..hi] == bs[lo..i] + [bs[i]] + bs[i + 1..hi];
  }

  lemma FreeCoalesced(rs: seq<Region>, bs: seq<Block>, i: int)
    requires Tiled(rs, bs) && Coalesced(bs) && 0 <= i < |bs|
    requires SameSpan(bs, MergeFrom(bs, i), MergeTo(bs, i), [Merged(bs, i)])
    ensures Coalesced(FreeBlocks(bs, i))
  {
    var lo, hi := MergeFrom(bs, i), MergeTo(bs, i);
    assert lo > 0 ==> Separated(bs, lo - 1);
    assert hi < |bs| ==> Separated(bs, hi - 1);
    SpliceCoalesced(rs, bs, lo, hi, [Merged(bs, i)]);
  }

  lemma FreeTotal(bs: seq<Block>, i: int)
    requires 0 <= i < |bs| && bs[i].live
    ensures Total(FreeBlocks(bs, i)) == Total(bs).Plus(Totals(-1, -bs[i].Words(), bs[i].Words()))
  {
    MergeTotal(bs, i);
    TotalSplice(bs, MergeFrom(bs, i), MergeTo(bs, i), [Merged(bs, i)]);
    TotalSmall(Merged(bs, i), Merged(bs, i));
  }

  lemma FreeTiled(rs: seq<Region>, bs: seq<Block>, i: int)
    requires Tiled(rs, bs) && Coalesced(bs) && 0 <= i < |bs| && bs[i].live
    ensures Tiled(rs, FreeBlocks(bs, i)) && Coalesced(FreeBlocks(bs, i))
  {
    MergeSpan(rs, bs, i);
    SpliceTiled(rs, bs, MergeFrom(bs, i), MergeTo(bs, i), [Merged(bs, i)]);
    FreeCoalesced(rs, bs, i);
  }

  lemma FreeKeepsInv(s: State, h: nat, p: int)
    requires Inv(s, h)
    ensures Inv(Free(s, p).0, h)
  {
    var i := BlockAt(s.blocks, p - 1);
    if p != NULL && i >= 0 && s.blocks[i].live {
      FreeTiled(s.regions, s.blocks, i);
      FreeTotal(s.blocks, i);
    }
  }

  /** The new blocks and statistics by cases are those of the free, and keep the invariant. */
  lemma FreeByCases(s: State, h: nat, p: int, bs: seq<Block>, stats: Stats)
    requires Inv(s, h) && p != NULL
    requires var i := BlockAt(s.blocks, p - 1);
             if i >= 0 && s.blocks[i].live then
               bs == FreeBlocks(s.blocks, i) && stats == CountFree(s.stats, Bytes(s.blocks[i].Words()))
             else bs == s.blocks && stats == s.stats
    ensures s.(blocks := bs, stats := stats) == Free(s, p).0 && Inv(s.(blocks := bs, stats := stats), h)
  {
    FreeKeepsInv(s, h, p);
  }

  /** What a free reports: a double free exactly for the data of a free block, an invalid pointer exactly if no
      block has its data there, and nothing for NULL; each of them leaves everything as it was. */
  lemma FreeReports(s: State, h: nat, p: int)
    requires Inv(s, h)
    ensures var (s', outcome) := Free(s, p);
            && (outcome == Nothing <==> p == NULL)
            && (outcome == Freed <==> exists i :: 0 <= i < |s.blocks| && s.blocks[i].start + 1 == p && s.blocks[i].live)
            && (outcome == DoubleFree <==> exists i :: 0 <= i < |s.blocks| && s.blocks[i].start + 1 == p && !s.blocks[i].live)
            && (outcome == NotValid <==> p != NULL && forall i :: 0 <= i < |s.blocks| ==> s.blocks[i].start + 1 != p)
            && (outcome != Freed ==> s' == s)
  {
    forall i | 0 <= i < |s.blocks|
      ensures BlockAt(s.blocks, s.blocks[i].start) == i && s.blocks[i].start > 0
    {
      assert WellPlaced(s.regions, s.blocks[i]);
      BlockAtUnique(s.regions, s.blocks, i);
    }
  }

  lemma BlockAtUnique(rs: seq<Region>, bs: seq<Block>, i: int)
    requires Tiled(rs, bs) && 0 <= i < |bs|
    ensures BlockAt(bs, bs[i].start) == i
  {
    var k := BlockAt(bs, bs[i].start);
    assert WellPlaced(rs, bs[i]) && WellPlaced(rs, bs[k]);
    assert k < i ==> Before(bs[k], bs[i]);
    assert i < k ==> Before(bs[i], bs[k]);
  }

  /** Where the handed-out part of carved hole i sits, and that freeing it merges the tiling back. */
  lemma CarveBlock(rs: seq<Region>, bs: seq<Block>, i: int, need: nat, h: nat, temporary: bool) returns (j: int)
    requires Tiled(rs, bs) && Coalesced(bs) && 0 <= i < |bs| && Fits(bs[i], need, h) && need >= 1 && h >= 1
    ensures var t, b := Splice(bs, i, i + 1, Carve(bs[i], need, h, temporary)), Carved(bs[i], need, h, temporary);
            && 0 <= j < |t| && t[j] == b && BlockAt(t, b.start) == j
            && FreeBlocks(t, j) == bs
  {
    var c := Carve(bs[i], need, h, temporary);
    j := if |c| == 2 && !temporary then i + 1 else i;
    SpliceAt(bs, i, i + 1, c, j);
    CarveSpan(rs, bs, i, need, h, temporary);
    SpliceTiled(rs, bs, i, i + 1, c);
    BlockAtUnique(rs, Splice(bs, i, i + 1, c), j);
    assert |c| == 2 ==> Contiguous(c[0], c[1]);
    SplitMergesBack(rs, bs, i, c, j);
  }

  /** Freeing what was just allocated puts back the very same blocks. */
  lemma FreeUndoesAlloc(s: State, h: nat, n: nat, temporary: bool)
    requires Inv(s, h) && Alloc(s, h, n, temporary).1 != NULL
    ensures var (s', p) := Alloc(s, h, n, temporary);
            var (s'', outcome) := Free(s', p);
            && outcome == Freed
            && s'' == s.(stats := s''.stats)
            && s''.stats.allocatedBytes == s.stats.allocatedBytes
            && s''.stats.allocCnt == s.stats.allocCnt
  {
    var i, b := AllocShape(s, h, n, temporary);
    var j := CarveBlock(s.regions, s.blocks, i, DataWords(n), h, temporary);
    FreeLiveAt(Alloc(s, h, n, temporary).0, b.start + 1, j);
  }

  lemma FreeLiveAt(s: State, p: int, j: int)
    requires p != NULL && 0 <= j == BlockAt(s.blocks, p - 1) && s.blocks[j].live
    ensures Free(s, p) ==
            (s.(blocks := FreeBlocks(s.blocks, j), stats := CountFree(s.stats, Bytes(s.blocks[j].Words()))), Freed)
  {
  }

  /** The run around the handed-out part of carved hole i is the whole of it. */
  lemma SplitRun(bs: seq<Block>, i: int, c: seq<Block>, j: int)
    requires Coalesced(bs) && 0 <= i < |bs| && !bs[i].live
    requires 1 <= |c| <= 2 && i <= j < i + |c| && c[j - i].live && (|c| == 2 ==> !c[1 - (j - i)].live && Contiguous(c[0], c[1]))
    requires SameSpan(bs, i, i + 1, c)
    ensures var t := Splice(bs, i, i + 1, c); j < |t| && MergeFrom(t, j) == i && MergeTo(t, j) == i + |c|
  {
    var t := Splice(bs, i, i + 1, c);
    SpliceAt(bs, i, i + 1, c, j);
    if j > 0 {
      SpliceAt(bs, i, i + 1, c, j - 1);
    }
    if j + 1 < |t| {
      SpliceAt(bs, i, i + 1, c, j + 1);
    }
    assert i > 0 ==> Separated(bs, i - 1);
    assert i + 1 < |bs| ==> Separated(bs, i);
    assert bs[i..i + 1] == [bs[i]] && c[0].region == bs[i].region;
  }

  lemma SplitMergesBack(rs: seq<Region>, bs: seq<Block>, i: int, c: seq<Block>, j: int)
    requires Tiled(rs, bs) && Coalesced(bs) && 0 <= i < |bs| && !bs[i].live
    requires 1 <= |c| <= 2 && i <= j < i + |c| && c[j - i].live && (|c| == 2 ==> !c[1 - (j - i)].live && Contiguous(c[0], c[1]))
    requires SameSpan(bs, i, i + 1, c)
    ensures j < |Splice(bs, i, i + 1, c)| && FreeBlocks(Splice(bs, i, i + 1, c), j) == bs
  {
    var t := Splice(bs, i, i + 1, c);
    SplitRun(bs, i, c, j);
    SpliceAt(bs, i, i + 1, c, i);
    SpliceAt(bs, i, i + 1, c, i + |c| - 1);
    SpliceAt(bs, i, i + 1, c, j);
    assert Merged(t, j) == bs[i];
    assert t[..i] == bs[..i] && t[i + |c|..] == bs[i + 1..];
  }

  /** Once nothing is live, every region is again one single free block. */
  lemma AllFree(s: State, h: nat, r: nat)
    requires Inv(s, h) && s.stats.allocCnt == 0 && r < |s.regions|
    ensures exists i :: 0 <= i < |s.blocks|
              && s.blocks[i] == Block(s.regions[r].lo, s.regions[r].hi - s.regions[r].lo - 1, false, r)
              && forall j :: 0 <= j < |s.blocks| && s.blocks[j].region == r ==> j == i
  {
    var rs, bs := s.regions, s.blocks;
    forall i | 0 <= i < |bs|
      ensures bs[i].size >= 1
    {
      assert WellPlaced(rs, bs[i]);
    }
    TotalBounds(bs);
    var i := BlockIn(bs, r);
    forall j | 0 <= j < |bs| && bs[j].region == r
      ensures bs[j].start == rs[r].lo && bs[j].Last() == rs[r].hi && j == i
    {
      Lonely(rs, bs, j);
      Lonely(rs, bs, i);
      assert j < i ==> Before(bs[j], bs[i]);
      assert i < j ==> Before(bs[i], bs[j]);
    }
  }

  lemma Lonely(rs: seq<Region>, bs: seq<Block>, i: int)
    requires Tiled(rs, bs) && Coalesced(bs) && 0 <= i < |bs|
    requires forall k :: 0 <= k < |bs| ==> !bs[k].live
    ensures WellPlaced(rs, bs[i])
    ensures bs[i].start == rs[bs[i].region].lo && bs[i].Last() == rs[bs[i].region].hi
  {
    assert WellPlaced(rs, bs[i]);
    assert StartsWell(rs, bs, i) && EndsWell(rs, bs, i);
    assert i > 0 ==> Separated(bs, i - 1);
    assert i + 1 < |bs| ==> Separated(bs, i);
  }

  lemma {:induction false} BlockIn(bs: seq<Block>, r: nat) returns (i: int)
    requires RegionWords(bs, r) > 0
    ensures 0 <= i < |bs| && bs[i].region == r
  {
    if bs[0].region == r {
      i := 0;
    } else {
      var k := BlockIn(bs[1..], r);
      i := k + 1;
    }
  }

  // ----- Adding a region

  /** The number of blocks below address a. */
  function Position(bs: seq<Block>, a: int): (i: nat)
    ensures i <= |bs|
    ensures forall k :: 0 <= k < i ==> bs[k].start <= a
    ensures i < |bs| ==> bs[i].start > a
  {
    if bs == [] || bs[0].start > a then 0 else 1 + Position(bs[1..], a)
  }

  /** Temporary allocations must leave 5 percent of the heap free. */
  function DefaultLimit(heapSize: int): int {
    heapSize / 100 * 95
  }

  function RegionBlock(rs: seq<Region>, start: int, words: int): Block {
    Block(start, words - 2, false, |rs|)
  }

  /** The region is one more hole, in its place. */
  function Extended(s: State, start: int, words: int): State {
    var size := s.heapSize + Bytes(words);
    var at := Position(s.blocks, start);
    State(s.regions + [Region(start, start + words - 1)],
          Splice(s.blocks, at, at, [RegionBlock(s.regions, start, words)]),
          size, DefaultLimit(size), s.stats.(sectorSize := size))
  }

  /** ns_mem_region_add of `words` words at `start`: the new state and the return code. */
  function AddRegion(s: State, h: nat, start: int, words: int): (State, int) {
    var i := BlockAt(s.blocks, start);
    if start == NULL || words < 3 then (s, -1)
    else if i >= 0 && IsHole(s.blocks[i], h) then (s, -2)
    else if |s.regions| == REGION_COUNT then (s, -3)
    else (Extended(s, start, words), 0)
  }

  /** The return codes: -1 for no memory or less than three words, else -2 for a region whose first hole is
      listed already, else -3 if there are three regions; and then everything is as it was. */
  lemma AddRegionAnswers(s: State, h: nat, start: int, words: int)
    requires Inv(s, h)
    ensures var (s', ret) := AddRegion(s, h, start, words);
            var there := exists i :: 0 <= i < |s.blocks| && s.blocks[i].start == start &&
                                     !s.blocks[i].live && s.blocks[i].size >= h;
            && ret in {0, -1, -2, -3}
            && (ret == -1 <==> start == 0 || words < 3)
            && (ret == -2 <==> start != 0 && words >= 3 && there)
            && (ret == -3 <==> start != 0 && words >= 3 && !there && |s.regions| == 3)
            && (ret == 0 ==> |s'.regions| == |s.regions| + 1)
            && (ret != 0 ==> s' == s)
  {
    forall i | 0 <= i < |s.blocks|
      ensures BlockAt(s.blocks, s.blocks[i].start) == i
    {
      BlockAtUnique(s.regions, s.blocks, i);
    }
  }

  lemma AddRegionWith(s: State, h: nat, start: int, words: int) returns (r: (State, int))
    requires start != NULL && words >= 3 && BlockAt(s.blocks, start) < 0
    ensures r == AddRegion(s, h, start, words)
    ensures r == if |s.regions| == REGION_COUNT then (s, -3) else (Extended(s, start, words), 0)
  {
    r := AddRegion(s, h, start, words);
  }

  /** What the caller owes: memory of its own, large enough for a hole. Adding a region again while it
      is one whole hole is tolerated, and refused. */
  ghost predicate MayAdd(s: State, h: nat, start: int, words: int) {
    || start == NULL
    || words < 3
    || (&& start > 0
        && words >= h + 2
        && forall r :: 0 <= r < |s.regions| ==> DisjointRegions(s.regions[r], Region(start, start + words - 1)))
    || (var i := BlockAt(s.blocks, start);
        i >= 0 && IsHole(s.blocks[i], h) && s.blocks[i].size == words - 2)
  }

  /** A block of a region of its own fits between the existing ones. */
  lemma NewRegionApart(rs: seq<Region>, bs: seq<Block>, start: int, words: int, k: int)
    requires Tiled(rs, bs) && 0 <= k < |bs| && words >= 3
    requires forall r :: 0 <= r < |rs| ==> DisjointRegions(rs[r], Region(start, start + words - 1))
    ensures var b := RegionBlock(rs, start, words);
            if k < Position(bs, start) then Before(bs[k], b) else Before(b, bs[k])
    ensures bs[k].start != start
  {
    assert WellPlaced(rs, bs[k]);
    var i := Position(bs, start);
    if k >= i {
      assert k > i ==> Before(bs[i], bs[k]);
      assert WellPlaced(rs, bs[i]);
    }
  }

  lemma InsertTiled(rs: seq<Region>, bs: seq<Block>, start: int, words: int)
    requires Tiled(rs, bs) && words >= 3
    requires forall r :: 0 <= r < |rs| ==> DisjointRegions(rs[r], Region(start, start + words - 1))
    ensures var i := Position(bs, start);
            var t := Splice(bs, i, i, [RegionBlock(rs, start, words)]);
            Ordered(t)
            && forall k :: 0 <= k < |t| ==> WellPlaced(rs + [Region(start, start + words - 1)], t[k])
  {
    var i, b := Position(bs, start), RegionBlock(rs, start, words);
    var t := Splice(bs, i, i, [b]);
    forall k | 0 <= k < |t|
      ensures WellPlaced(rs + [Region(start, start + words - 1)], t[k])
    {
      SpliceAt(bs, i, i, [b], k);
      assert k < i ==> WellPlaced(rs, bs[k]);
      assert k > i ==> WellPlaced(rs, bs[k - 1]);
    }
    forall k, l | 0 <= k < l < |t|
      ensures Before(t[k], t[l])
    {
      SpliceAt(bs, i, i, [b], k);
      SpliceAt(bs, i, i, [b], l);
      if k == i {
        NewRegionApart(rs, bs, start, words, l - 1);
      } else if l == i {
        NewRegionApart(rs, bs, start, words, k);
      } else {
        assert Before(bs[if k < i then k else k - 1], bs[if l < i then l else l - 1]);
      }
    }
  }

  lemma InsertStarts(rs: seq<Region>, bs: seq<Block>, start: int, words: int, k: int)
    requires Tiled(rs, bs) && words >= 3
    requires forall r :: 0 <= r < |rs| ==> DisjointRegions(rs[r], Region(start, start + words - 1))
    requires 0 <= k <= |bs|
    ensures var i, rs' := Position(bs, start), rs + [Region(start, start + words - 1)];
            var t := Splice(bs, i, i, [RegionBlock(rs, start, words)]);
            |t| == |bs| + 1 && WellPlaced(rs', t[k]) && StartsWell(rs', t, k)
  {
    var i, b := Position(bs, start), RegionBlock(rs, start, words);
    InsertTiled(rs, bs, start, words);
    SpliceAt(bs, i, i, [b], k);
    if k > 0 {
      SpliceAt(bs, i, i, [b], k - 1);
    }
    if k != i {
      var k' := if k < i then k else k - 1;
      assert WellPlaced(rs, bs[k']) && StartsWell(rs, bs, k');
      if k == i + 1 && i > 0 {
        NewRegionApart(rs, bs, start, words, i - 1);
        NewRegionApart(rs, bs, start, words, i);
      }
    }
  }

  lemma InsertEnds(rs: seq<Region>, bs: seq<Block>, start: int, words: int, k: int)
    requires Tiled(rs, bs) && words >= 3
    requires forall r :: 0 <= r < |rs| ==> DisjointRegions(rs[r], Region(start, start + words - 1))
    requires 0 <= k <= |bs|
    ensures var i, rs' := Position(bs, start), rs + [Region(start, start + words - 1)];
            var t := Splice(bs, i, i, [RegionBlock(rs, start, words)]);
            |t| == |bs| + 1 && WellPlaced(rs', t[k]) && EndsWell(rs', t, k)
  {
    var i, b := Position(bs, start), RegionBlock(rs, start, words);
    InsertTiled(rs, bs, start, words);
    SpliceAt(bs, i, i, [b], k);
    if 0 < i < |bs| {
      NewRegionApart(rs, bs, start, words, i - 1);
      NewRegionApart(rs, bs, start, words, i);
    }
    if k < |bs| {
      SpliceAt(bs, i, i, [b], k + 1);
    }
    if k != i {
      var k' := if k < i then k else k - 1;
      assert WellPlaced(rs, bs[k']) && EndsWell(rs, bs, k');
    }
  }

  lemma InsertCoalesced(rs: seq<Region>, bs: seq<Block>, start: int, words: int)
    requires Tiled(rs, bs) && Coalesced(bs)
    ensures var i := Position(bs, start);
            Coalesced(Splice(bs, i, i, [RegionBlock(rs, start, words)]))
  {
    var i, b := Position(bs, start), RegionBlock(rs, start, words);
    var t := Splice(bs, i, i, [b]);
    forall k | 0 <= k && k + 1 < |t|
      ensures Separated(t, k)
    {
      SpliceAt(bs, i, i, [b], k);
      SpliceAt(bs, i, i, [b], k + 1);
      if k + 1 < i {
        assert Separated(bs, k);
      } else if k > i {
        assert Separated(bs, k - 1);
      } else {
        assert WellPlaced(rs, bs[if k == i then k else k]);
      }
    }
  }

  lemma {:induction false} NoWords(bs: seq<Block>, r: nat)
    requires forall k :: 0 <= k < |bs| ==> bs[k].region != r
    ensures RegionWords(bs, r) == 0
  {
    if bs != [] {
      NoWords(bs[1..], r);
    }
  }

  lemma InsertWords(rs: seq<Region>, bs: seq<Block>, start: int, words: int, r: nat)
    requires Tiled(rs, bs) && r <= |rs|
    ensures var i, rs' := Position(bs, start), rs + [Region(start, start + words - 1)];
            RegionWords(Splice(bs, i, i, [RegionBlock(rs, start, words)]), r) == rs'[r].hi - rs'[r].lo + 1
  {
    var i, b := Position(bs, start), RegionBlock(rs, start, words);
    RegionWordsConcat(bs[..i] + [b], bs[i..], r);
    RegionWordsConcat(bs[..i], [b], r);
    assert bs == bs[..i] + bs[i..];
    RegionWordsConcat(bs[..i], bs[i..], r);
    assert [b][1..] == [];
    if r == |rs| {
      forall k | 0 <= k < |bs|
        ensures bs[k].region != r
      {
        assert WellPlaced(rs, bs[k]);
      }
      NoWords(bs, r);
    }
  }

  lemma PlusSwap(a: Totals, b: Totals, c: Totals)
    ensures a.Plus(b).Plus(c) == a.Plus(Totals(0, 0, 0)).Plus(c).Plus(b)
  {
  }

  lemma InsertTotal(bs: seq<Block>, i: int, b: Block)
    requires 0 <= i <= |bs|
    ensures Total(Splice(bs, i, i, [b])) == Total(bs).Plus(Weigh(b))
  {
    assert bs[i..i] == [] && Total([]) == Totals(0, 0, 0);
    TotalSplice(bs, i, i, [b]);
    TotalSmall(b, b);
    PlusSwap(Total(bs[..i]), Weigh(b), Total(bs[i..]));
  }

  lemma AddRegionTiled(rs: seq<Region>, bs: seq<Block>, start: int, words: int, t: seq<Block>)
    requires Tiled(rs, bs) && words >= 3
    requires forall r :: 0 <= r < |rs| ==> DisjointRegions(rs[r], Region(start, start + words - 1))
    requires t == Splice(bs, Position(bs, start), Position(bs, start), [RegionBlock(rs, start, words)])
    ensures Tiled(rs + [Region(start, start + words - 1)], t)
  {
    var rs' := rs + [Region(start, start + words - 1)];
    InsertTiled(rs, bs, start, words);
    forall k | 0 <= k < |t|
      ensures WellPlaced(rs', t[k]) && StartsWell(rs', t, k) && EndsWell(rs', t, k)
    {
      InsertStarts(rs, bs, start, words, k);
      InsertEnds(rs, bs, start, words, k);
    }
    forall r | 0 <= r < |rs'|
      ensures RegionWords(t, r) == rs'[r].hi - rs'[r].lo + 1
    {
      InsertWords(rs, bs, start, words, r);
    }
  }

  lemma AddRegionKeepsInv(s: State, h: nat, start: int, words: int)
    requires Inv(s, h) && MayAdd(s, h, start, words)
    ensures Inv(AddRegion(s, h, start, words).0, h)
  {
    var (s', ret) := AddRegion(s, h, start, words);
    if ret == 0 {
      AddRegionTiled(s.regions, s.blocks, start, words, s'.blocks);
      InsertCoalesced(s.regions, s.blocks, start, words);
      InsertTotal(s.blocks, Position(s.blocks, start), RegionBlock(s.regions, start, words));
    }
  }

  // ----- Whole runs

  datatype Op = DoAlloc(n: nat, temporary: bool) | DoFree(p: int) | DoAdd(start: int, words: int)

  function Step(s: State, h: nat, op: Op): State {
    match op
    case DoAlloc(n, temporary) => Alloc(s, h, n, temporary).0
    case DoFree(p) => Free(s, p).0
    case DoAdd(start, words) => AddRegion(s, h, start, words).0
  }

  function Run(s: State, h: nat, ops: seq<Op>): State
    decreases |ops|
  {
    if ops == [] then s else Run(Step(s, h, ops[0]), h, ops[1..])
  }

  /** What may be freed: NULL, the payload address of any block, or a pointer whose header word is in no region,
      or is the last word of one, where no block fits. */
  ghost predicate MayFree(s: State, p: int) {
    || p == NULL
    || BlockAt(s.blocks, p - 1) >= 0
    || forall r :: 0 <= r < |s.regions| ==> !(s.regions[r].lo <= p - 1 < s.regions[r].hi)
  }

  /** Every region the run adds is the caller's to give at that point, and what it frees may be freed. */
  ghost predicate Legal(s: State, h: nat, ops: seq<Op>)
    decreases |ops|
  {
    ops == [] || (&& (ops[0].DoAdd? ==> MayAdd(s, h, ops[0].start, ops[0].words))
                  && (ops[0].DoFree? ==> MayFree(s, ops[0].p))
                  && Legal(Step(s, h, ops[0]), h, ops[1..]))
  }

  /** The most bytes allocated at any point of a run. */
  function Peak(s: State, h: nat, ops: seq<Op>): int
    decreases |ops|
  {
    var now := s.stats.allocatedBytes;
    if ops == [] then now
    else
      var later := Peak(Step(s, h, ops[0]), h, ops[1..]);
      if now < later then later else now
  }

  lemma StepKeepsInv(s: State, h: nat, op: Op)
    requires Inv(s, h) && (op.DoAdd? ==> MayAdd(s, h, op.start, op.words))
    ensures Inv(Step(s, h, op), h)
  {
    match op
    case DoAlloc(n, temporary) => AllocKeepsInv(s, h, n, temporary);
    case DoFree(p) => FreeKeepsInv(s, h, p);
    case DoAdd(start, words) => AddRegionKeepsInv(s, h, start, words);
  }

  lemma {:induction false} RunKeepsInv(s: State, h: nat, ops: seq<Op>)
    requires Inv(s, h) && Legal(s, h, ops)
    ensures Inv(Run(s, h, ops), h)
    decreases |ops|
  {
    if ops != [] {
      StepKeepsInv(s, h, ops[0]);
      RunKeepsInv(Step(s, h, ops[0]), h, ops[1..]);
    }
  }

  /** One step raises the recorded maximum exactly when it raises the allocation above it. */
  lemma StepMaximum(s: State, h: nat, op: Op)
    requires Inv(s, h)
    ensures var s' := Step(s, h, op);
            s'.stats.allocatedBytesMax ==
            if s.stats.allocatedBytesMax < s'.stats.allocatedBytes then s'.stats.allocatedBytes else s.stats.allocatedBytesMax
  {
    match op
    case DoAlloc(n, temporary) =>
    case DoFree(p) =>
      var i := BlockAt(s.blocks, p - 1);
      if i >= 0 {
        assert WellPlaced(s.regions, s.blocks[i]);
      }
    case DoAdd(start, words) =>
  }

  /** The recorded maximum is the running peak. */
  lemma {:induction false} MaximumIsPeak(s: State, h: nat, ops: seq<Op>)
    requires Inv(s, h) && Legal(s, h, ops)
    ensures Run(s, h, ops).stats.allocatedBytesMax ==
            if s.stats.allocatedBytesMax < Peak(s, h, ops) then Peak(s, h, ops) else s.stats.allocatedBytesMax
    decreases |ops|
  {
    if ops != [] {
      StepMaximum(s, h, ops[0]);
      StepKeepsInv(s, h, ops[0]);
      MaximumIsPeak(Step(s, h, ops[0]), h, ops[1..]);
    }
  }

  // ----- Conservation

  function SumRegionWords(bs: seq<Block>, n: nat): int {
    if n == 0 then 0 else SumRegionWords(bs, n - 1) + RegionWords(bs, n - 1)
  }

  function SumRegions(rs: seq<Region>, n: nat): int
    requires n <= |rs|
  {
    if n == 0 then 0 else SumRegions(rs, n - 1) + rs[n - 1].hi - rs[n - 1].lo + 1
  }

  lemma {:induction false} SumOneMore(bs: seq<Block>, n: nat)
    requires bs != []
    ensures SumRegionWords(bs, n) == SumRegionWords(bs[1..], n) + if bs[0].region < n then bs[0].Words() else 0
  {
    if n > 0 {
      SumOneMore(bs, n - 1);
    }
  }

  lemma {:induction false} SumNone(n: nat)
    ensures SumRegionWords([], n) == 0
  {
    if n > 0 {
      SumNone(n - 1);
    }
  }

  lemma {:induction false} WordsByRegion(bs: seq<Block>, n: nat)
    requires forall i :: 0 <= i < |bs| ==> bs[i].region < n
    ensures Total(bs).liveWords + Total(bs).freeWords == SumRegionWords(bs, n)
  {
    if bs == [] {
      SumNone(n);
    } else {
      WordsByRegion(bs[1..], n);
      SumOneMore(bs, n);
    }
  }

  lemma {:induction false} RegionsFull(rs: seq<Region>, bs: seq<Block>, n: nat)
    requires Tiled(rs, bs) && n <= |rs|
    ensures SumRegionWords(bs, n) == SumRegions(rs, n)
  {
    if n > 0 {
      RegionsFull(rs, bs, n - 1);
    }
  }

  /** No word is lost: the live and the free words are together the words of all regions, the recorded
      heap size is that many bytes, and the allocated-bytes figure is the live words among them. */
  lemma Conservation(s: State, h: nat)
    requires Inv(s, h)
    ensures Total(s.blocks).liveWords + Total(s.blocks).freeWords == SumRegions(s.regions, |s.regions|)
    ensures s.stats.sectorSize == Bytes(SumRegions(s.regions, |s.regions|))
    ensures s.stats.allocatedBytes == Bytes(SumRegions(s.regions, |s.regions|) - Total(s.blocks).freeWords)
  {
    forall i | 0 <= i < |s.blocks|
      ensures s.blocks[i].region < |s.regions|
    {
      assert WellPlaced(s.regions, s.blocks[i]);
    }
    WordsByRegion(s.blocks, |s.regions|);
    RegionsFull(s.regions, s.blocks, |s.regions|);
  }

  // ----- The first state

  /** ns_mem_init: one region, all of it one hole. */
  function Initial(start: int, words: int): State {
    State([Region(start, start + words - 1)], [RegionBlock([], start, words)], Bytes(words), DefaultLimit(Bytes(words)),
          Stats(Bytes(words), 0, 0, 0, 0, 0))
  }

  lemma InitialInv(start: int, words: int, h: nat)
    requires start > 0 && h >= 1 && words >= h + 2
    ensures Inv(Initial(start, words), h)
  {
    var b := RegionBlock([], start, words);
    TotalSmall(b, b);
    assert [b][1..] == [];
    assert RegionWords([b], 0) == b.Words();
  }

  /** Everything above holds of every heap that any legal history of calls produces. */
  lemma Reachable(start: int, words: int, h: nat, ops: seq<Op>)
    requires start > 0 && h >= 1 && words >= h + 2 && Legal(Initial(start, words), h, ops)
    ensures Inv(Run(Initial(start, words), h, ops), h)
    ensures Run(Initial(start, words), h, ops).stats.allocatedBytesMax == Peak(Initial(start, words), h, ops)
  {
    InitialInv(start, words, h);
    RunKeepsInv(Initial(start, words), h, ops);
    MaximumIsPeak(Initial(start, words), h, ops);
    PeakNonNegative(Initial(start, words), h, ops);
  }

  lemma PeakNonNegative(s: State, h: nat, ops: seq<Op>)
    ensures Peak(s, h, ops) >= s.stats.allocatedBytes
  {
  }

  // ----- Which blocks are live

  lemma InSplice(bs: seq<Block>, i: int, j: int, mid: seq<Block>, b: Block)
    requires 0 <= i <= j <= |bs|
    ensures b in Splice(bs, i, j, mid) <==> b in bs[..i] || b in mid || b in bs[j..]
    ensures b in bs <==> b in bs[..i] || b in bs[i..j] || b in bs[j..]
  {
    assert bs == bs[..i] + bs[i..j] + bs[j..];
  }

  lemma CarvedIsNew(rs: seq<Region>, bs: seq<Block>, i: int, need: nat, h: nat, temporary: bool)
    requires Tiled(rs, bs) && 0 <= i < |bs| && Fits(bs[i], need, h) && need >= 1
    ensures Carved(bs[i], need, h, temporary) !in bs
  {
    var c := Carved(bs[i], need, h, temporary);
    forall k | 0 <= k < |bs| ensures bs[k] != c {
      assert WellPlaced(rs, bs[k]) && WellPlaced(rs, bs[i]);
      assert k < i ==> Before(bs[k], bs[i]);
      assert i < k ==> Before(bs[i], bs[k]);
    }
  }

  lemma InCarve(hole: Block, need: nat, h: nat, temporary: bool, b: Block)
    requires b.live
    ensures b in Carve(hole, need, h, temporary) <==> b == Carved(hole, need, h, temporary)
  {
    var c := Carve(hole, need, h, temporary);
    assert |c| == 1 ==> c == [Carved(hole, need, h, temporary)];
    assert |c| == 2 ==> c[0] == Carved(hole, need, h, temporary) || c[1] == Carved(hole, need, h, temporary);
  }

  /** A successful allocation adds one live block, at the address returned, and touches no other. */
  lemma LiveAfterAlloc(s: State, h: nat, n: nat, temporary: bool) returns (added: Block)
    requires Inv(s, h) && Alloc(s, h, n, temporary).1 != NULL
    ensures added.live && added.start + 1 == Alloc(s, h, n, temporary).1 && added !in s.blocks
    ensures forall b: Block :: b.live ==> (b in Alloc(s, h, n, temporary).0.blocks <==> b in s.blocks || b == added)
  {
    var i, c := AllocShape(s, h, n, temporary);
    var mid := Carve(s.blocks[i], DataWords(n), h, temporary);
    added := c;
    CarvedIsNew(s.regions, s.blocks, i, DataWords(n), h, temporary);
    assert s.blocks[i..i + 1] == [s.blocks[i]];
    forall b: Block | b.live
      ensures b in Splice(s.blocks, i, i + 1, mid) <==> b in s.blocks || b == added
    {
      InSplice(s.blocks, i, i + 1, mid, b);
      InCarve(s.blocks[i], DataWords(n), h, temporary, b);
    }
  }

  /** A free takes away the one live block it names and touches no other. */
  lemma LiveAfterFree(s: State, h: nat, p: int)
    requires Inv(s, h) && Free(s, p).1 == Freed
    ensures var freed := s.blocks[BlockAt(s.blocks, p - 1)];
            && freed.live && freed.start + 1 == p
            && forall b: Block :: b.live ==> (b in Free(s, p).0.blocks <==> b in s.blocks && b != freed)
  {
    var bs, i := s.blocks, BlockAt(s.blocks, p - 1);
    var from, end := MergeFrom(bs, i), MergeTo(bs, i);
    forall b: Block | b.live
      ensures b in FreeBlocks(bs, i) <==> b in bs && b != bs[i]
    {
      InSplice(bs, from, end, [Merged(bs, i)], b);
      OnlyLive(bs, i, b);
      NotElsewhere(bs, i, from, end);
    }
  }

  lemma OnlyLive(bs: seq<Block>, i: int, b: Block)
    requires 0 <= i < |bs| && bs[i].live && b.live
    ensures b in bs[MergeFrom(bs, i)..MergeTo(bs, i)] <==> b == bs[i]
  {
    var run := bs[MergeFrom(bs, i)..MergeTo(bs, i)];
    assert run[i - MergeFrom(bs, i)] == bs[i];
  }

  lemma NotElsewhere(bs: seq<Block>, i: int, from: int, end: int)
    requires Ordered(bs) && 0 <= from <= i < end <= |bs| && forall k :: 0 <= k < |bs| ==> bs[k].size >= 1
    ensures bs[i] !in bs[..from] && bs[i] !in bs[end..]
  {
    forall k | 0 <= k < from ensures bs[k] != bs[i] {
      assert Before(bs[k], bs[i]);
    }
    forall k | end <= k < |bs| ensures bs[k] != bs[i] {
      assert Before(bs[i], bs[k]);
    }
  }

  /** Adding a region changes no live block. */
  lemma LiveAfterAdd(s: State, h: nat, start: int, words: int, b: Block)
    requires b.live
    ensures b in AddRegion(s, h, start, words).0.blocks <==> b in s.blocks
  {
    var at := Position(s.blocks, start);
    InSplice(s.blocks, at, at, [RegionBlock(s.regions, start, words)], b);
  }

  // ----- Who owns a word

  predicate InPayload(b: Block, a: int) {
    b.live && b.start < a < b.Last()
  }

  /** A word of a live payload belongs to that block alone: it is in no other block, it is no tag, and
      no descriptor of the hole list covers it. */
  lemma PayloadIsPrivate(s: State, h: nat, i: int, a: int)
    requires Inv(s, h) && 0 <= i < |s.blocks| && InPayload(s.blocks[i], a)
    ensures forall j :: 0 <= j < |s.blocks| && s.blocks[j].start <= a <= s.blocks[j].Last() ==> j == i
    ensures forall j :: 0 <= j < |s.blocks| ==> a != s.blocks[j].start && a != s.blocks[j].Last()
    ensures forall k :: 0 <= k < |Holes(s.blocks, h)| ==> !(Holes(s.blocks, h)[k] <= a < Holes(s.blocks, h)[k] + h)
  {
    var bs := s.blocks;
    forall j | 0 <= j < |bs| && j != i
      ensures bs[j].Last() < a || a < bs[j].start
    {
      assert WellPlaced(s.regions, bs[j]) && WellPlaced(s.regions, bs[i]);
      assert j < i ==> Before(bs[j], bs[i]);
      assert i < j ==> Before(bs[i], bs[j]);
    }
    forall k | 0 <= k < |Holes(bs, h)|
      ensures !(Holes(bs, h)[k] <= a < Holes(bs, h)[k] + h)
    {
      var j := HoleIndex(bs, h, k);
    }
  }

  /** The hole list is in strictly ascending address order and names each hole exactly once. */
  lemma HolesAscend(s: State, h: nat, k: int, l: int)
    requires Inv(s, h) && 0 <= k < l < |Holes(s.blocks, h)|
    ensures Holes(s.blocks, h)[k] + h < Holes(s.blocks, h)[l]
  {
    HoleIndexMonotone(s.blocks, h, k, l);
    assert Before(s.blocks[HoleIndex(s.blocks, h, k)], s.blocks[HoleIndex(s.blocks, h, l)]);
  }

  lemma HolesAreTheHoles(s: State, h: nat, a: int)
    requires Inv(s, h)
    ensures a in Holes(s.blocks, h) <==>
            exists i :: 0 <= i < |s.blocks| && !s.blocks[i].live && s.blocks[i].size >= h && s.blocks[i].start + 1 == a
  {
    var bs := s.blocks;
    if a in Holes(bs, h) {
      var k :| 0 <= k < |Holes(bs, h)| && Holes(bs, h)[k] == a;
      assert bs[HoleIndex(bs, h, k)].start + 1 == a;
    }
    if i :| 0 <= i < |bs| && !bs[i].live && bs[i].size >= h && bs[i].start + 1 == a {
      HolesSplit(bs, h, i);
      assert Holes(bs, h)[|Holes(bs[..i], h)|] == a;
    }
  }

  // ----- The failure count and the running total

  /** 1 for an allocation that returns NULL. */
  function Refused(s: State, h: nat, op: Op): nat {
    if op.DoAlloc? && Alloc(s, h, op.n, op.temporary).1 == 0 then 1 else 0
  }

  /** The bytes of the block with data at p, its tags included. */
  function BytesAt(bs: seq<Block>, p: int): int {
    var i := BlockAt(bs, p - 1);
    if i < 0 then 0 else 4 * (bs[i].size + 2)
  }

  /** The bytes that an operation hands out. */
  function Given(s: State, h: nat, op: Op): int {
    if op.DoAlloc? && Alloc(s, h, op.n, op.temporary).1 != 0 then
      BytesAt(Step(s, h, op).blocks, Alloc(s, h, op.n, op.temporary).1)
    else 0
  }

  /** How many allocations of the run return NULL. */
  function Refusals(s: State, h: nat, ops: seq<Op>): nat
    decreases |ops|
  {
    if ops == [] then 0 else Refused(s, h, ops[0]) + Refusals(Step(s, h, ops[0]), h, ops[1..])
  }

  /** The bytes of all the blocks that the run hands out, freed again or not. */
  function HandedOut(s: State, h: nat, ops: seq<Op>): int
    decreases |ops|
  {
    if ops == [] then 0 else Given(s, h, ops[0]) + HandedOut(Step(s, h, ops[0]), h, ops[1..])
  }

  lemma BytesAtIs(bs: seq<Block>, p: int, i: int, b: Block)
    requires 0 <= i < |bs| && BlockAt(bs, p - 1) == i && bs[i] == b
    ensures BytesAt(bs, p) == Bytes(b.Words())
  {
  }

  lemma GivenIs(s: State, h: nat, n: nat, temporary: bool)
    requires Inv(s, h) && Alloc(s, h, n, temporary).1 != NULL
    ensures Alloc(s, h, n, temporary).0.stats == CountAlloc(s.stats, Given(s, h, DoAlloc(n, temporary)))
  {
    var i, b := AllocShape(s, h, n, temporary);
    var j := CarveBlock(s.regions, s.blocks, i, DataWords(n), h, temporary);
    BytesAtIs(Alloc(s, h, n, temporary).0.blocks, b.start + 1, j, b);
  }

  /** Where a wrapped sum stands: k times 2^32 below the sum itself. */
  lemma Wraps(x: int) returns (k: int)
    ensures 0 <= Wrap32(x) < 0x1_0000_0000 && x == Wrap32(x) + 0x1_0000_0000 * k
  {
    k := x / 0x1_0000_0000;
  }

  predicate Counters(st: Stats) {
    0 <= st.allocFailCnt < 0x1_0000_0000 && 0 <= st.allocTotalBytes < 0x1_0000_0000
  }

  lemma AllocCounts(s: State, h: nat, op: Op) returns (j: int, k: int)
    requires Inv(s, h) && Counters(s.stats) && op.DoAlloc?
    ensures var t := Step(s, h, op).stats;
            && Counters(t)
            && s.stats.allocFailCnt + Refused(s, h, op) == t.allocFailCnt + 0x1_0000_0000 * j
            && s.stats.allocTotalBytes + Given(s, h, op) == t.allocTotalBytes + 0x1_0000_0000 * k
  {
    j, k := 0, 0;
    if Alloc(s, h, op.n, op.temporary).1 == NULL {
      AllocRefused(s, h, op.n, op.temporary);
      j := Wraps(s.stats.allocFailCnt + 1);
    } else {
      GivenIs(s, h, op.n, op.temporary);
      k := Wraps(s.stats.allocTotalBytes + Given(s, h, op));
    }
  }

  lemma OthersCount(s: State, h: nat, op: Op)
    requires !op.DoAlloc?
    ensures var t := Step(s, h, op).stats;
            t.allocFailCnt == s.stats.allocFailCnt && t.allocTotalBytes == s.stats.allocTotalBytes
  {
  }

  lemma StepCounts(s: State, h: nat, op: Op) returns (j: int, k: int)
    requires Inv(s, h) && Counters(s.stats)
    ensures var t := Step(s, h, op).stats;
            && Counters(t)
            && s.stats.allocFailCnt + Refused(s, h, op) == t.allocFailCnt + 0x1_0000_0000 * j
            && s.stats.allocTotalBytes + Given(s, h, op) == t.allocTotalBytes + 0x1_0000_0000 * k
  {
    j, k := 0, 0;
    if op.DoAlloc? {
      j, k := AllocCounts(s, h, op);
    } else {
      OthersCount(s, h, op);
    }
  }

  lemma {:induction false} RunCounts(s: State, h: nat, ops: seq<Op>) returns (j: int, k: int)
    requires Inv(s, h) && Legal(s, h, ops) && Counters(s.stats)
    ensures var t := Run(s, h, ops).stats;
            && Counters(t)
            && s.stats.allocFailCnt + Refusals(s, h, ops) == t.allocFailCnt + 0x1_0000_0000 * j
            && s.stats.allocTotalBytes + HandedOut(s, h, ops) == t.allocTotalBytes + 0x1_0000_0000 * k
    decreases |ops|
  {
    j, k := 0, 0;
    if ops != [] {
      var j0, k0 := StepCounts(s, h, ops[0]);
      StepKeepsInv(s, h, ops[0]);
      j, k := RunCounts(Step(s, h, ops[0]), h, ops[1..]);
      j, k := j + j0, k + k0;
    }
  }

  lemma ModuloIs(x: int, a: int, k: int)
    requires 0 <= a < 0x1_0000_0000 && x == a + 0x1_0000_0000 * k
    ensures a == x % 0x1_0000_0000
  {
  }

  /** From initialization on, the failure count is the number of allocations that returned NULL, and the total
      the bytes of the blocks that were handed out, both modulo 2^32. */
  lemma CountsSinceInit(start: int, words: int, h: nat, ops: seq<Op>)
    requires start > 0 && h >= 1 && words >= h + 2 && Legal(Initial(start, words), h, ops)
    ensures var s0 := Initial(start, words);
            && Run(s0, h, ops).stats.allocFailCnt == Refusals(s0, h, ops) % 0x1_0000_0000
            && Run(s0, h, ops).stats.allocTotalBytes == HandedOut(s0, h, ops) % 0x1_0000_0000
  {
    var s0 := Initial(start, words);
    InitialInv(start, words, h);
    var j, k := RunCounts(s0, h, ops);
    ModuloIs(Refusals(s0, h, ops), Run(s0, h, ops).stats.allocFailCnt, j);
    ModuloIs(HandedOut(s0, h, ops), Run(s0, h, ops).stats.allocTotalBytes, k);
  }

  // ----- The limit for temporary blocks

  /** 95 percent of the whole hundreds of bytes of the heap. */
  ghost predicate LimitOk(s: State) {
    100 * s.tempLimit == 95 * (s.heapSize - s.heapSize % 100)
  }

  lemma DefaultLimitOk(size: int)
    ensures 100 * DefaultLimit(size) == 95 * (size - size % 100)
  {
  }

  lemma {:induction false} RunKeepsLimit(s: State, h: nat, ops: seq<Op>)
    requires LimitOk(s)
    ensures LimitOk(Run(s, h, ops))
    decreases |ops|
  {
    if ops != [] {
      var s' := Step(s, h, ops[0]);
      DefaultLimitOk(s'.heapSize);
      RunKeepsLimit(s', h, ops[1..]);
    }
  }

  /** The limit of every reachable state, up to rounding 95 percent of the heap. */
  lemma LimitSinceInit(start: int, words: int, h: nat, ops: seq<Op>)
    requires start > 0 && h >= 1 && words >= h + 2 && Legal(Initial(start, words), h, ops)
    ensures var s := Run(Initial(start, words), h, ops);
            && 100 * s.tempLimit == 95 * (s.heapSize - s.heapSize % 100)
            && 95 * s.heapSize - 9500 < 100 * s.tempLimit <= 95 * s.heapSize
  {
    DefaultLimitOk(Bytes(words));
    RunKeepsLimit(Initial(start, words), h, ops);
  }

  /** In every reachable state a temporary request that fits some hole is refused exactly if more than 95 percent
      of the whole hundreds of bytes of the heap are allocated: never up to 95 percent less 95 bytes, and
      always beyond 95 percent. */
  lemma TemporaryShare(start: int, words: int, h: nat, ops: seq<Op>, n: nat)
    requires start > 0 && h >= 1 && words >= h + 2 && Legal(Initial(start, words), h, ops)
    requires n >= 1
    requires var bs := Run(Initial(start, words), h, ops).blocks;
             exists i :: 0 <= i < |bs| && !bs[i].live && bs[i].size >= h && 4 * bs[i].size >= n
    ensures var s := Run(Initial(start, words), h, ops);
            var refused := Alloc(s, h, n, true).1 == 0;
            && (refused <==> 100 * s.stats.allocatedBytes > 95 * (s.heapSize - s.heapSize % 100))
            && (100 * s.stats.allocatedBytes <= 95 * s.heapSize - 9500 ==> !refused)
            && (100 * s.stats.allocatedBytes > 95 * s.heapSize ==> refused)
  {
    var s := Run(Initial(start, words), h, ops);
    InitialInv(start, words, h);
    RunKeepsInv(Initial(start, words), h, ops);
    LimitSinceInit(start, words, h, ops);
    AllocSucceeds(s, h, n, true);
  }
}
