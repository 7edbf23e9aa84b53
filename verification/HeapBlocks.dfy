/** How blocks tile the regions of the heap (nsdynmemLIB.c), as pure sequences.

    A block occupies size + 2 consecutive words: a tag, `size` data words, the same tag again. The
    heap is one sequence of blocks in address order; `region` says which region a block is part of. */
module HeapBlocks {

  datatype Region = Region(lo: int, hi: int) // first and last word

  datatype Block = Block(start: int, size: int, live: bool, region: nat) {
    function Last(): int { start + size + 1 }

    /** The value of both tags; a free block's is negative. */
    function Tag(): int { if live then size else -size }

    function Words(): int { size + 2 }
  }

  predicate Before(a: Block, b: Block) {
    a.Last() < b.start
  }

  predicate Contiguous(a: Block, b: Block) {
    a.region == b.region && a.Last() + 1 == b.start
  }

  predicate WellPlaced(rs: seq<Region>, b: Block) {
    && b.size >= 1
    && b.region < |rs|
    && rs[b.region].lo <= b.start
    && b.Last() <= rs[b.region].hi
  }

  predicate StartsWell(rs: seq<Region>, bs: seq<Block>, i: int)
    requires 0 <= i < |bs| && WellPlaced(rs, bs[i])
  {
    bs[i].start == rs[bs[i].region].lo || (i > 0 && Contiguous(bs[i - 1], bs[i]))
  }

  predicate EndsWell(rs: seq<Region>, bs: seq<Block>, i: int)
    requires 0 <= i < |bs| && WellPlaced(rs, bs[i])
  {
    bs[i].Last() == rs[bs[i].region].hi || (i + 1 < |bs| && Contiguous(bs[i], bs[i + 1]))
  }

  /** Words of the blocks that belong to region r. */
  function RegionWords(bs: seq<Block>, r: nat): int {
    if bs == [] then 0 else (if bs[0].region == r then bs[0].Words() else 0) + RegionWords(bs[1..], r)
  }

  ghost predicate Ordered(bs: seq<Block>) {
    forall i, j {:trigger Before(bs[i], bs[j])} :: 0 <= i < j < |bs| ==> Before(bs[i], bs[j])
  }

  /** The blocks of each region follow one another without gap or overlap, from its first word to its last. */
  ghost predicate Tiled(rs: seq<Region>, bs: seq<Block>) {
    && (forall i :: 0 <= i < |bs| ==> WellPlaced(rs, bs[i]))
    && Ordered(bs)
    && (forall i :: 0 <= i < |bs| ==> StartsWell(rs, bs, i))
    && (forall i :: 0 <= i < |bs| ==> EndsWell(rs, bs, i))
    && (forall r :: 0 <= r < |rs| ==> RegionWords(bs, r) == rs[r].hi - rs[r].lo + 1)
  }

  predicate Separated(bs: seq<Block>, i: int)
    requires 0 <= i && i + 1 < |bs|
  {
    Contiguous(bs[i], bs[i + 1]) ==> bs[i].live || bs[i + 1].live
  }

  /** No two neighbours within a region are both free. */
  ghost predicate Coalesced(bs: seq<Block>) {
    forall i :: 0 <= i && i + 1 < |bs| ==> Separated(bs, i)
  }

  lemma {:induction false} RegionWordsConcat(a: seq<Block>, b: seq<Block>, r: nat)
    ensures RegionWords(a + b, r) == RegionWords(a, r) + RegionWords(b, r)
  {
    if a == [] {
      assert a + b == b;
    } else {
      assert (a + b)[1..] == a[1..] + b;
      RegionWordsConcat(a[1..], b, r);
    }
  }

  ghost predicate Chain(bs: seq<Block>, r: nat) {
    && (forall k :: 0 <= k < |bs| ==> bs[k].region == r)
    && (forall k :: 0 <= k && k + 1 < |bs| ==> Contiguous(bs[k], bs[k + 1]))
  }

  lemma {:induction false} ChainWords(bs: seq<Block>, r: nat)
    requires bs != [] && Chain(bs, r)
    ensures RegionWords(bs, r) == bs[|bs| - 1].Last() - bs[0].start + 1
    ensures forall q: nat :: q != r ==> RegionWords(bs, q) == 0
  {
    if |bs| > 1 {
      assert Contiguous(bs[0], bs[1]);
      ChainWords(bs[1..], r);
    }
  }

  // ----- Replacing a run of blocks by others over the same words

  function Splice(bs: seq<Block>, i: int, j: int, mid: seq<Block>): seq<Block>
    requires 0 <= i <= j <= |bs|
  {
    bs[..i] + mid + bs[j..]
  }

  /** mid covers exactly the words of the blocks i..j, which are all in one region. */
  ghost predicate SameSpan(bs: seq<Block>, i: int, j: int, mid: seq<Block>) {
    && 0 <= i < j <= |bs|
    && mid != []
    && Chain(bs[i..j], bs[i].region)
    && Chain(mid, bs[i].region)
    && (forall k :: 0 <= k < |mid| ==> mid[k].size >= 1)
    && mid[0].start == bs[i].start
    && mid[|mid| - 1].Last() == bs[j - 1].Last()
  }

  lemma SpliceAt(bs: seq<Block>, i: int, j: int, mid: seq<Block>, k: int)
    requires 0 <= i <= j <= |bs| && 0 <= k < i + |mid| + |bs| - j
    ensures |Splice(bs, i, j, mid)| == i + |mid| + |bs| - j
    ensures Splice(bs, i, j, mid)[k] ==
            if k < i then bs[k] else if k < i + |mid| then mid[k - i] else bs[k - i - |mid| + j]
  {
  }

  /** Chains ascend, and so lie between their first start and their last end. */
  lemma {:induction false} ChainBounds(bs: seq<Block>, r: nat, k: int, l: int)
    requires Chain(bs, r) && 0 <= k <= l < |bs|
    requires forall x :: 0 <= x < |bs| ==> bs[x].size >= 1
    ensures bs[0].start <= bs[k].start && bs[k].Last() <= bs[|bs| - 1].Last()
    ensures k < l ==> Before(bs[k], bs[l])
    decreases |bs|
  {
    if |bs| > 1 {
      assert Contiguous(bs[0], bs[1]);
      if k > 0 {
        ChainBounds(bs[1..], r, k - 1, l - 1);
      } else if l > 0 {
        ChainBounds(bs[1..], r, 0, l - 1);
      } else {
        ChainBounds(bs[1..], r, 0, 0);
      }
    }
  }

  lemma SpliceOrdered(rs: seq<Region>, bs: seq<Block>, i: int, j: int, mid: seq<Block>)
    requires Tiled(rs, bs) && SameSpan(bs, i, j, mid)
    ensures Ordered(Splice(bs, i, j, mid))
  {
    var t := Splice(bs, i, j, mid);
    forall k, l | 0 <= k < l < |t|
      ensures Before(t[k], t[l])
    {
      SpliceAt(bs, i, j, mid, k);
      SpliceAt(bs, i, j, mid, l);
      if i <= k < i + |mid| {
        ChainBounds(mid, bs[i].region, k - i, if l < i + |mid| then l - i else k - i);
        if l >= i + |mid| {
          assert Before(bs[j - 1], bs[l - i - |mid| + j]);
        }
      } else if k < i {
        if l < i {
          assert Before(bs[k], bs[l]);
        } else if l < i + |mid| {
          assert Before(bs[k], bs[i]);
          ChainBounds(mid, bs[i].region, l - i, l - i);
        } else {
          assert Before(bs[k], bs[l - i - |mid| + j]);
        }
      } else {
        assert Before(bs[k - i - |mid| + j], bs[l - i - |mid| + j]);
      }
    }
  }

  lemma SplicePlaced(rs: seq<Region>, bs: seq<Block>, i: int, j: int, mid: seq<Block>, k: int)
    requires Tiled(rs, bs) && SameSpan(bs, i, j, mid)
    requires 0 <= k < i + |mid| + |bs| - j
    ensures |Splice(bs, i, j, mid)| == i + |mid| + |bs| - j
    ensures WellPlaced(rs, Splice(bs, i, j, mid)[k])
  {
    SpliceAt(bs, i, j, mid, k);
    assert WellPlaced(rs, bs[i]) && WellPlaced(rs, bs[j - 1]) && bs[j - 1] == bs[i..j][j - 1 - i];
    if i <= k < i + |mid| {
      ChainBounds(mid, bs[i].region, k - i, k - i);
    }
  }

  lemma SpliceStarts(rs: seq<Region>, bs: seq<Block>, i: int, j: int, mid: seq<Block>, k: int)
    requires Tiled(rs, bs) && SameSpan(bs, i, j, mid)
    requires 0 <= k < i + |mid| + |bs| - j
    ensures |Splice(bs, i, j, mid)| == i + |mid| + |bs| - j
    ensures WellPlaced(rs, Splice(bs, i, j, mid)[k])
    ensures StartsWell(rs, Splice(bs, i, j, mid), k)
  {
    SplicePlaced(rs, bs, i, j, mid, k);
    SpliceAt(bs, i, j, mid, k);
    if k > 0 {
      SpliceAt(bs, i, j, mid, k - 1);
    }
    if k <= i {
      assert StartsWell(rs, bs, k);
    } else if k < i + |mid| {
      assert Contiguous(mid[k - i - 1], mid[k - i]);
    } else {
      assert bs[j - 1] == bs[i..j][j - 1 - i] && StartsWell(rs, bs, k - i - |mid| + j);
    }
  }

  lemma SpliceEnds(rs: seq<Region>, bs: seq<Block>, i: int, j: int, mid: seq<Block>, k: int)
    requires Tiled(rs, bs) && SameSpan(bs, i, j, mid)
    requires 0 <= k < i + |mid| + |bs| - j
    ensures |Splice(bs, i, j, mid)| == i + |mid| + |bs| - j
    ensures WellPlaced(rs, Splice(bs, i, j, mid)[k])
    ensures EndsWell(rs, Splice(bs, i, j, mid), k)
  {
    SplicePlaced(rs, bs, i, j, mid, k);
    SpliceAt(bs, i, j, mid, k);
    if k + 1 < i + |mid| + |bs| - j {
      SpliceAt(bs, i, j, mid, k + 1);
    }
    if k < i {
      assert EndsWell(rs, bs, k);
    } else if k < i + |mid| - 1 {
      assert Contiguous(mid[k - i], mid[k - i + 1]);
    } else {
      assert bs[j - 1] == bs[i..j][j - 1 - i] && EndsWell(rs, bs, k - i - |mid| + j);
    }
  }

  lemma SpliceTiled(rs: seq<Region>, bs: seq<Block>, i: int, j: int, mid: seq<Block>)
    requires Tiled(rs, bs) && SameSpan(bs, i, j, mid)
    ensures Tiled(rs, Splice(bs, i, j, mid))
  {
    var t := Splice(bs, i, j, mid);
    SpliceOrdered(rs, bs, i, j, mid);
    forall k | 0 <= k < |t|
      ensures WellPlaced(rs, t[k]) && StartsWell(rs, t, k) && EndsWell(rs, t, k)
    {
      SpliceStarts(rs, bs, i, j, mid, k);
      SpliceEnds(rs, bs, i, j, mid, k);
    }
    forall r | 0 <= r < |rs|
      ensures RegionWords(t, r) == rs[r].hi - rs[r].lo + 1
    {
      assert bs == bs[..i] + bs[i..j] + bs[j..];
      RegionWordsConcat(bs[..i] + bs[i..j], bs[j..], r);
      RegionWordsConcat(bs[..i], bs[i..j], r);
      RegionWordsConcat(bs[..i] + mid, bs[j..], r);
      RegionWordsConcat(bs[..i], mid, r);
      ChainWords(bs[i..j], bs[i].region);
      ChainWords(mid, bs[i].region);
    }
  }

  lemma SpliceCoalesced(rs: seq<Region>, bs: seq<Block>, i: int, j: int, mid: seq<Block>)
    requires Tiled(rs, bs) && SameSpan(bs, i, j, mid) && Coalesced(bs) && Coalesced(mid)
    requires i > 0 && Contiguous(bs[i - 1], bs[i]) ==> bs[i - 1].live || mid[0].live
    requires j < |bs| && Contiguous(bs[j - 1], bs[j]) ==> bs[j].live || mid[|mid| - 1].live
    ensures Coalesced(Splice(bs, i, j, mid))
  {
    var t := Splice(bs, i, j, mid);
    forall k | 0 <= k && k + 1 < |t|
      ensures Separated(t, k)
    {
      SpliceAt(bs, i, j, mid, k);
      SpliceAt(bs, i, j, mid, k + 1);
      assert bs[j - 1] == bs[i..j][j - 1 - i];
      if k + 1 < i {
        assert Separated(bs, k);
      } else if i <= k && k + 1 < i + |mid| {
        assert Separated(mid, k - i);
      } else if k >= i + |mid| {
        assert Separated(bs, k - i - |mid| + j);
      }
    }
  }

  // ----- Holes: the free blocks large enough to carry a list descriptor of h words

  predicate IsHole(b: Block, h: nat) {
    !b.live && b.size >= h
  }

  /** The addresses of the descriptors of all holes, in block order. */
  function Holes(bs: seq<Block>, h: nat): seq<int> {
    if bs == [] then [] else (if IsHole(bs[0], h) then [bs[0].start + 1] else []) + Holes(bs[1..], h)
  }

  lemma {:induction false} HolesConcat(a: seq<Block>, b: seq<Block>, h: nat)
    ensures Holes(a + b, h) == Holes(a, h) + Holes(b, h)
  {
    if a == [] {
      assert a + b == b;
    } else {
      assert (a + b)[1..] == a[1..] + b;
      HolesConcat(a[1..], b, h);
    }
  }

  lemma HolesSplit(bs: seq<Block>, h: nat, i: int)
    requires 0 <= i < |bs|
    ensures Holes(bs, h) == Holes(bs[..i], h) + (if IsHole(bs[i], h) then [bs[i].start + 1] else []) + Holes(bs[i + 1..], h)
  {
    assert bs == bs[..i] + bs[i..];
    HolesConcat(bs[..i], bs[i..], h);
    assert bs[i..][1..] == bs[i + 1..];
  }

  lemma HolesSplice(bs: seq<Block>, h: nat, i: int, j: int, mid: seq<Block>)
    requires 0 <= i <= j <= |bs|
    ensures Holes(Splice(bs, i, j, mid), h) == Holes(bs[..i], h) + Holes(mid, h) + Holes(bs[j..], h)
    ensures Holes(bs, h) == Holes(bs[..i], h) + Holes(bs[i..j], h) + Holes(bs[j..], h)
  {
    HolesConcat(bs[..i] + mid, bs[j..], h);
    HolesConcat(bs[..i], mid, h);
    assert bs == bs[..i] + bs[i..j] + bs[j..];
    HolesConcat(bs[..i] + bs[i..j], bs[j..], h);
    HolesConcat(bs[..i], bs[i..j], h);
  }

  /** The block that position k of the hole list stands for. */
  function HoleIndex(bs: seq<Block>, h: nat, k: int): (i: int)
    requires 0 <= k < |Holes(bs, h)|
    ensures 0 <= i < |bs| && IsHole(bs[i], h) && Holes(bs, h)[k] == bs[i].start + 1
    ensures |Holes(bs[..i], h)| == k
  {
    if IsHole(bs[0], h) && k == 0 then 0
    else
      var i := HoleIndex(bs[1..], h, if IsHole(bs[0], h) then k - 1 else k) + 1;
      assert bs[..i][1..] == bs[1..][..i - 1];
      i
  }

  lemma HolesPrefix(bs: seq<Block>, h: nat, i: int, j: int)
    requires 0 <= i <= j <= |bs|
    ensures |Holes(bs[..i], h)| <= |Holes(bs[..j], h)|
    ensures i < j && IsHole(bs[i], h) ==> |Holes(bs[..i], h)| < |Holes(bs[..j], h)|
  {
    HolesConcat(bs[..i], bs[i..j], h);
    assert bs[..j] == bs[..i] + bs[i..j];
  }

  lemma HoleIndexOf(bs: seq<Block>, h: nat, i: int)
    requires 0 <= i < |bs| && IsHole(bs[i], h)
    ensures |Holes(bs[..i], h)| < |Holes(bs, h)|
    ensures HoleIndex(bs, h, |Holes(bs[..i], h)|) == i
  {
    HolesSplit(bs, h, i);
    var j := HoleIndex(bs, h, |Holes(bs[..i], h)|);
    HolesPrefix(bs, h, if i < j then i else j, if i < j then j else i);
  }

  lemma HoleIndexMonotone(bs: seq<Block>, h: nat, k: int, l: int)
    requires 0 <= k < l < |Holes(bs, h)|
    ensures HoleIndex(bs, h, k) < HoleIndex(bs, h, l)
  {
    var i, j := HoleIndex(bs, h, k), HoleIndex(bs, h, l);
    HolesPrefix(bs, h, if i < j then i else j, if i < j then j else i);
  }
}
