/** How a tiling and its hole list sit in memory together: the tags of all blocks, and the list of
    holes threaded through the holes' own data words. */
module HeapMemory {
  import opened NsList
  import opened HeapBlocks
  import Model = HeapModel

  ghost predicate TagsAt(m: seq<int>, b: Block) {
    && 0 <= b.start && b.Last() < |m|
    && b.start <= b.Last()
    && m[b.start] == b.Tag()
    && m[b.Last()] == b.Tag()
  }

  ghost predicate Tagged(m: seq<int>, bs: seq<Block>) {
    forall i :: 0 <= i < |bs| ==> TagsAt(m, bs[i])
  }

  /** HOLE_T_SIZE: a descriptor is one link record. */
  function HoleSize(y: Layout): nat {
    2 * y.ptr
  }

  predicate OutsideHead(y: Layout, head: int, r: Region) {
    r.hi < head || head + HoleSize(y) <= r.lo
  }

  /** All regions lie in memory, off the NULL address and off the list head; links start the entry. */
  ghost predicate Geometry(size: int, y: Layout, head: int, rs: seq<Region>) {
    && y.ptr >= 1
    && y.offset == 0
    && InMemory(size, y, head)
    && (forall r :: 0 <= r < |rs| ==> 0 < rs[r].lo && rs[r].hi < size && OutsideHead(y, head, rs[r]))
  }

  function HoleList(y: Layout, bs: seq<Block>): seq<int> {
    Holes(bs, HoleSize(y))
  }

  ghost predicate Stored(m: seq<int>, y: Layout, head: int, bs: seq<Block>) {
    && Tagged(m, bs)
    && IsList(m, y, head, HoleList(y, bs))
  }

  // ----- Where descriptors are

  lemma HoleRec(y: Layout, head: int, bs: seq<Block>, k: int)
    requires y.offset == 0 && 0 < k <= |HoleList(y, bs)|
    ensures var b := bs[HoleIndex(bs, HoleSize(y), k - 1)];
            IsHole(b, HoleSize(y)) && Rec(y, head, HoleList(y, bs), k) == b.start + 1
  {
  }

  lemma HolesApart(size: int, y: Layout, head: int, rs: seq<Region>, bs: seq<Block>, k: int, l: int)
    requires Geometry(size, y, head, rs) && Tiled(rs, bs) && 0 <= k < l <= |HoleList(y, bs)|
    ensures Apart(y, Rec(y, head, HoleList(y, bs), k), Rec(y, head, HoleList(y, bs), l))
  {
    var h := HoleSize(y);
    HoleRec(y, head, bs, l);
    var j := HoleIndex(bs, h, l - 1);
    assert WellPlaced(rs, bs[j]);
    if k == 0 {
      assert OutsideHead(y, head, rs[bs[j].region]);
    } else {
      HoleRec(y, head, bs, k);
      HoleIndexMonotone(bs, h, k - 1, l - 1);
      assert Before(bs[HoleIndex(bs, h, k - 1)], bs[j]);
    }
  }

  lemma HolesPlaced(size: int, y: Layout, head: int, rs: seq<Region>, bs: seq<Block>)
    requires Geometry(size, y, head, rs) && Tiled(rs, bs)
    ensures Placed(size, y, head, HoleList(y, bs))
  {
    var s, h := HoleList(y, bs), HoleSize(y);
    forall k | 0 <= k < |s|
      ensures s[k] > NULL && InMemory(size, y, s[k])
    {
      assert WellPlaced(rs, bs[HoleIndex(bs, h, k)]);
    }
    forall k | 0 <= k <= |s|
      ensures InMemory(size, y, Rec(y, head, s, k))
    {
      assert k > 0 ==> Rec(y, head, s, k) == s[k - 1];
    }
    forall k, l | 0 <= k < l <= |s|
      ensures Apart(y, Rec(y, head, s, k), Rec(y, head, s, l))
    {
      HolesApart(size, y, head, rs, bs, k, l);
    }
  }

  lemma PlacedCanJoin(size: int, y: Layout, head: int, s: seq<int>, i: int, e: int)
    requires 0 <= i <= |s| && Placed(size, y, head, InsertAt(s, i, e))
    ensures CanJoin(size, y, head, s, e)
  {
    var t := InsertAt(s, i, e);
    assert t[i] == e && Rec(y, head, t, i + 1) == e + y.offset;
    forall k | 0 <= k <= |s|
      ensures Apart(y, Rec(y, head, s, k), e + y.offset)
    {
      InsertRec(y, head, s, i, e, if k <= i then k else k + 1);
      assert k <= i ==> Apart(y, Rec(y, head, t, k), Rec(y, head, t, i + 1));
      assert k > i ==> Apart(y, Rec(y, head, t, i + 1), Rec(y, head, t, k + 1));
    }
  }

  // ----- What an operation on blocks lo..hi leaves alone

  predicate Inside(b: Block, a: int) {
    b.start < a < b.Last()
  }

  /** Address a is none of the words an operation on blocks lo..hi may write: not in the list head,
      not in those blocks, and not in the data of any free block. */
  ghost predicate Protected(y: Layout, head: int, bs: seq<Block>, lo: int, hi: int, a: int)
    requires 0 <= lo < hi <= |bs|
  {
    && !(head <= a < head + HoleSize(y))
    && !(bs[lo].start <= a <= bs[hi - 1].Last())
    && (forall i {:trigger Inside(bs[i], a)} :: 0 <= i < |bs| && !bs[i].live ==> !Inside(bs[i], a))
  }

  ghost predicate Quiet(m: seq<int>, m': seq<int>, y: Layout, head: int, bs: seq<Block>, lo: int, hi: int)
    requires 0 <= lo < hi <= |bs|
  {
    && |m'| == |m|
    && (forall a :: 0 <= a < |m| && Protected(y, head, bs, lo, hi, a) ==> m'[a] == m[a])
  }

  lemma OthersProtected(y: Layout, head: int, rs: seq<Region>, bs: seq<Block>, lo: int, hi: int, k: int, a: int)
    requires 0 <= lo < hi <= |bs| && Tiled(rs, bs)
    requires forall r :: 0 <= r < |rs| ==> OutsideHead(y, head, rs[r])
    requires 0 <= k < |bs| && !(lo <= k < hi)
    requires a == bs[k].start || a == bs[k].Last() || (bs[k].live && Inside(bs[k], a))
    ensures Protected(y, head, bs, lo, hi, a)
  {
    assert WellPlaced(rs, bs[k]) && OutsideHead(y, head, rs[bs[k].region]);
    forall i | 0 <= i < |bs| && i != k
      ensures bs[i].Last() < a || a < bs[i].start
    {
      assert WellPlaced(rs, bs[i]);
      assert i < k ==> Before(bs[i], bs[k]);
      assert k < i ==> Before(bs[k], bs[i]);
    }
    assert k < lo ==> Before(bs[k], bs[lo]);
    assert k >= hi ==> Before(bs[hi - 1], bs[k]);
  }

  /** Every element of s is the descriptor of a hole of bs. */
  ghost predicate HolesOnly(y: Layout, bs: seq<Block>, s: seq<int>) {
    forall k :: 0 <= k < |s| ==> s[k] in HoleList(y, bs)
  }

  lemma RemovedHolesOnly(y: Layout, bs: seq<Block>, k: int)
    requires 0 <= k < |HoleList(y, bs)|
    ensures HolesOnly(y, bs, HoleList(y, bs)) && HolesOnly(y, bs, RemoveAt(HoleList(y, bs), k))
  {
  }

  lemma RecUnprotected(y: Layout, head: int, bs: seq<Block>, lo: int, hi: int, s: seq<int>, k: int)
    requires 0 <= lo < hi <= |bs| && y.offset == 0 && y.ptr >= 1 && HolesOnly(y, bs, s) && 0 <= k <= |s|
    ensures !Protected(y, head, bs, lo, hi, Rec(y, head, s, k))
    ensures !Protected(y, head, bs, lo, hi, Rec(y, head, s, k) + y.ptr)
  {
    if k > 0 {
      assert s[k - 1] in HoleList(y, bs);
      var j :| 0 <= j < |HoleList(y, bs)| && HoleList(y, bs)[j] == s[k - 1];
      var b := bs[HoleIndex(bs, HoleSize(y), j)];
      assert Inside(b, s[k - 1]) && Inside(b, s[k - 1] + y.ptr);
    }
  }

  lemma QuietRemove(m: seq<int>, m': seq<int>, y: Layout, head: int, bs: seq<Block>, lo: int, hi: int, s: seq<int>,
          k: int)
    requires 0 <= lo < hi <= |bs| && y.offset == 0 && y.ptr >= 1 && HolesOnly(y, bs, s)
    requires 0 <= k < |s| && Placed(|m|, y, head, s) && Removed(m, m', y, head, s, k)
    ensures Quiet(m, m', y, head, bs, lo, hi)
  {
    RecUnprotected(y, head, bs, lo, hi, s, k);
    RecUnprotected(y, head, bs, lo, hi, s, k + 1);
    RecUnprotected(y, head, bs, lo, hi, s, Succ(s, k + 1));
  }

  lemma QuietInsert(m: seq<int>, m': seq<int>, y: Layout, head: int, bs: seq<Block>, lo: int, hi: int, s: seq<int>,
          k: int, e: int)
    requires 0 <= lo < hi <= |bs| && y.offset == 0 && y.ptr >= 1 && HolesOnly(y, bs, s)
    requires 0 <= k <= |s| && Placed(|m|, y, head, s) && CanJoin(|m|, y, head, s, e) &&
              Inserted(m, m', y, head, s, k, e)
    requires bs[lo].start <= e && e + y.ptr <= bs[hi - 1].Last()
    ensures Quiet(m, m', y, head, bs, lo, hi)
  {
    RecUnprotected(y, head, bs, lo, hi, s, k);
    RecUnprotected(y, head, bs, lo, hi, s, Succ(s, k));
  }

  // ----- Writing a tag or a live payload leaves the list alone

  /** A word of block b that is in no descriptor. */
  predicate OffList(b: Block, a: int) {
    a == b.start || a == b.Last() || (b.live && Inside(b, a))
  }

  lemma WordOffList(size: int, y: Layout, head: int, rs: seq<Region>, bs: seq<Block>, j: int, a: int, k: int)
    requires Geometry(size, y, head, rs) && Tiled(rs, bs) && 0 <= j < |bs| && OffList(bs[j], a)
    requires 0 <= k <= |HoleList(y, bs)|
    ensures a != Rec(y, head, HoleList(y, bs), k) && a != Rec(y, head, HoleList(y, bs), k) + y.ptr
  {
    assert WellPlaced(rs, bs[j]);
    if k == 0 {
      assert OutsideHead(y, head, rs[bs[j].region]);
    } else {
      HoleRec(y, head, bs, k);
      var i := HoleIndex(bs, HoleSize(y), k - 1);
      assert WellPlaced(rs, bs[i]);
      assert i < j ==> Before(bs[i], bs[j]);
      assert j < i ==> Before(bs[j], bs[i]);
    }
  }

  lemma WordKeepsList(m: seq<int>, y: Layout, head: int, rs: seq<Region>, bs: seq<Block>, j: int, a: int, v: int)
    requires Geometry(|m|, y, head, rs) && Tiled(rs, bs) && 0 <= j < |bs| && OffList(bs[j], a)
    requires IsList(m, y, head, HoleList(y, bs))
    ensures 0 <= a < |m| && IsList(m[a := v], y, head, HoleList(y, bs))
  {
    var s := HoleList(y, bs);
    assert WellPlaced(rs, bs[j]);
    forall k | 0 <= k <= |s|
      ensures m[a := v][Rec(y, head, s, k)] == EntryAt(s, k)
      ensures m[a := v][Back(y, head, s, k)] == Rec(y, head, s, k)
    {
      WordOffList(|m|, y, head, rs, bs, j, a, k);
      WordOffList(|m|, y, head, rs, bs, j, a, Succ(s, k));
      assert m[Back(y, head, s, k)] == Rec(y, head, s, k);
    }
  }

  /** What a client writes into a live block disturbs no tag and no descriptor. */
  lemma PayloadKeepsStored(m: seq<int>, y: Layout, head: int, rs: seq<Region>, bs: seq<Block>, j: int, a: int, v: int)
    requires Geometry(|m|, y, head, rs) && Tiled(rs, bs) && Stored(m, y, head, bs)
    requires 0 <= j < |bs| && bs[j].live && Inside(bs[j], a)
    ensures 0 <= a < |m| && Stored(m[a := v], y, head, bs)
  {
    WordKeepsList(m, y, head, rs, bs, j, a, v);
    forall k | 0 <= k < |bs|
      ensures TagsAt(m[a := v], bs[k])
    {
      assert TagsAt(m, bs[k]);
      assert k < j ==> Before(bs[k], bs[j]);
      assert j < k ==> Before(bs[j], bs[k]);
    }
  }

  /** Both tags of block j. */
  lemma TagsKeepList(m: seq<int>, y: Layout, head: int, rs: seq<Region>, bs: seq<Block>, j: int, v: int)
    requires Geometry(|m|, y, head, rs) && Tiled(rs, bs) && 0 <= j < |bs|
    requires IsList(m, y, head, HoleList(y, bs))
    ensures 0 <= bs[j].start < bs[j].Last() < |m|
    ensures IsList(m[bs[j].start := v][bs[j].Last() := v], y, head, HoleList(y, bs))
  {
    assert WellPlaced(rs, bs[j]);
    WordKeepsList(m, y, head, rs, bs, j, bs[j].start, v);
    WordKeepsList(m[bs[j].start := v], y, head, rs, bs, j, bs[j].Last(), v);
  }

  /** ... and the tags of the others too. */
  lemma OtherTags(m: seq<int>, m': seq<int>, rs: seq<Region>, bs: seq<Block>, i: int, v: int)
    requires Tiled(rs, bs) && Tagged(m, bs) && 0 <= i < |bs| && TagsAt(m, bs[i])
    requires m' == m[bs[i].start := v][bs[i].Last() := v]
    ensures forall k :: 0 <= k < |bs| && k != i ==> TagsAt(m', bs[k])
  {
    forall k | 0 <= k < |bs| && k != i
      ensures TagsAt(m', bs[k])
    {
      assert TagsAt(m, bs[k]);
      assert k < i ==> Before(bs[k], bs[i]);
      assert k > i ==> Before(bs[i], bs[k]);
    }
  }

  lemma TagsQuiet(m: seq<int>, y: Layout, head: int, bs: seq<Block>, lo: int, hi: int, b: Block, v: int)
    requires 0 <= lo < hi <= |bs| && bs[lo].start <= b.start <= b.Last() <= bs[hi - 1].Last()
    requires 0 <= b.start && b.Last() < |m|
    ensures Quiet(m, m[b.start := v][b.Last() := v], y, head, bs, lo, hi)
  {
  }

  /** After a quiet operation only the tags of the new blocks remain to be looked at. */
  lemma QuietTagged(m: seq<int>, m': seq<int>, y: Layout, head: int, rs: seq<Region>, bs: seq<Block>, lo: int,
          hi: int, mid: seq<Block>)
    requires 0 <= lo < hi <= |bs| && Geometry(|m|, y, head, rs) && Tiled(rs, bs)
    requires Tagged(m, bs) && Quiet(m, m', y, head, bs, lo, hi)
    requires forall k :: 0 <= k < |mid| ==> TagsAt(m', mid[k])
    ensures Tagged(m', Splice(bs, lo, hi, mid))
  {
    var t := Splice(bs, lo, hi, mid);
    forall k | 0 <= k < |t|
      ensures TagsAt(m', t[k])
    {
      SpliceAt(bs, lo, hi, mid, k);
      if !(lo <= k < lo + |mid|) {
        var i := if k < lo then k else k - lo - |mid| + hi;
        OthersProtected(y, head, rs, bs, lo, hi, i, bs[i].start);
        OthersProtected(y, head, rs, bs, lo, hi, i, bs[i].Last());
        assert TagsAt(m, bs[i]);
      }
    }
  }

  lemma QuietPayload(m: seq<int>, m': seq<int>, y: Layout, head: int, rs: seq<Region>, bs: seq<Block>, lo: int,
          hi: int, i: int, a: int)
    requires 0 <= lo < hi <= |bs| && Geometry(|m|, y, head, rs) && Tiled(rs, bs)
    requires Quiet(m, m', y, head, bs, lo, hi)
    requires 0 <= i < |bs| && !(lo <= i < hi) && bs[i].live && Inside(bs[i], a)
    ensures 0 <= a < |m| && m'[a] == m[a]
  {
    assert WellPlaced(rs, bs[i]);
    OthersProtected(y, head, rs, bs, lo, hi, i, a);
  }

  lemma QuietTrans(m: seq<int>, m1: seq<int>, m2: seq<int>, y: Layout, head: int, bs: seq<Block>, lo: int, hi: int)
    requires 0 <= lo < hi <= |bs| && Quiet(m, m1, y, head, bs, lo, hi) && Quiet(m1, m2, y, head, bs, lo, hi)
    ensures Quiet(m, m2, y, head, bs, lo, hi)
  {
  }

  // ----- How the hole list changes when hole i is carved, or live block i is freed

  /** The position in the hole list of the first hole at or after block i. */
  function HolesBefore(y: Layout, bs: seq<Block>, i: int): nat
    requires 0 <= i <= |bs|
  {
    |Holes(bs[..i], HoleSize(y))|
  }

  lemma SmallHoles(y: Layout, a: Block, b: Block)
    ensures HoleList(y, [a]) == if IsHole(a, HoleSize(y)) then [a.start + 1] else []
    ensures HoleList(y, [a, b]) == HoleList(y, [a]) + HoleList(y, [b])
  {
    assert [a, b] == [a] + [b];
    HolesConcat([a], [b], HoleSize(y));
    assert [a][1..] == [];
  }

  /** Replacing the run lo..hi, whose holes are `gone`, by mid: list positions below stay. */
  lemma SpliceHoles(y: Layout, bs: seq<Block>, lo: int, hi: int, mid: seq<Block>)
    requires 0 <= lo <= hi <= |bs|
    ensures var s, k, gone := HoleList(y, bs), HolesBefore(y, bs, lo), HoleList(y, bs[lo..hi]);
            && k + |gone| <= |s|
            && s[k..k + |gone|] == gone
            && HoleList(y, Splice(bs, lo, hi, mid)) == s[..k] + HoleList(y, mid) + s[k + |gone|..]
  {
    HolesSplice(bs, HoleSize(y), lo, hi, mid);
    var s := HoleList(y, bs);
    var a, b, c := HoleList(y, bs[..lo]), HoleList(y, bs[lo..hi]), HoleList(y, bs[hi..]);
    assert s == a + b + c;
    assert s[..|a|] == a && s[|a|..|a| + |b|] == b && s[|a| + |b|..] == c;
  }

  lemma SpliceOneHole(y: Layout, bs: seq<Block>, lo: int, hi: int, mid: seq<Block>)
    requires 0 <= lo <= hi <= |bs| && |HoleList(y, bs[lo..hi])| == 1
    ensures var s, k, come := HoleList(y, bs), HolesBefore(y, bs, lo), HoleList(y, mid);
            && k < |s| && s[k] == HoleList(y, bs[lo..hi])[0]
            && (come == [] ==> HoleList(y, Splice(bs, lo, hi, mid)) == RemoveAt(s, k))
            && (|come| == 1 ==> HoleList(y, Splice(bs, lo, hi, mid)) == InsertAt(RemoveAt(s, k), k, come[0]))
            && (come == [s[k]] ==> HoleList(y, Splice(bs, lo, hi, mid)) == s)
  {
    SpliceHoles(y, bs, lo, hi, mid);
    var s, k := HoleList(y, bs), HolesBefore(y, bs, lo);
    assert s[k..k + 1] == [s[k]];
  }

  lemma SpliceNoHole(y: Layout, bs: seq<Block>, lo: int, hi: int, mid: seq<Block>)
    requires 0 <= lo <= hi <= |bs| && HoleList(y, bs[lo..hi]) == []
    ensures var s, k, come := HoleList(y, bs), HolesBefore(y, bs, lo), HoleList(y, mid);
            && k <= |s|
            && (come == [] ==> HoleList(y, Splice(bs, lo, hi, mid)) == s)
            && (|come| == 1 ==> HoleList(y, Splice(bs, lo, hi, mid)) == InsertAt(s, k, come[0]))
  {
    SpliceHoles(y, bs, lo, hi, mid);
  }

  lemma SpliceTwoHoles(y: Layout, bs: seq<Block>, lo: int, hi: int, mid: seq<Block>)
    requires 0 <= lo <= hi <= |bs| && |HoleList(y, bs[lo..hi])| == 2
    requires HoleList(y, mid) == [HoleList(y, bs[lo..hi])[0]]
    ensures var s, k := HoleList(y, bs), HolesBefore(y, bs, lo);
            && k + 1 < |s| && s[k + 1] == HoleList(y, bs[lo..hi])[1]
            && HoleList(y, Splice(bs, lo, hi, mid)) == RemoveAt(s, k + 1)
  {
    SpliceHoles(y, bs, lo, hi, mid);
    var s, k := HoleList(y, bs), HolesBefore(y, bs, lo);
    assert s[k..k + 2] == [s[k], s[k + 1]];
  }

  /** Position k is below block i, itself no hole, exactly when the descriptor at k is below where
      block i would have its own. */
  lemma HoleSide(y: Layout, rs: seq<Region>, bs: seq<Block>, i: int, k: int)
    requires Tiled(rs, bs) && 0 <= i < |bs| && !IsHole(bs[i], HoleSize(y)) && 0 <= k < |HoleList(y, bs)|
    ensures k < HolesBefore(y, bs, i) <==> HoleList(y, bs)[k] <= bs[i].start + 1
  {
    var j := HoleIndex(bs, HoleSize(y), k);
    HolesPrefix(bs, HoleSize(y), if i < j then i else j, if i < j then j else i);
    assert WellPlaced(rs, bs[j]);
    assert i < j ==> Before(bs[i], bs[j]);
    assert j < i ==> Before(bs[j], bs[i]);
  }

  lemma CarvedHoles(y: Layout, b: Block, need: nat, temporary: bool)
    requires IsHole(b, HoleSize(y))
    ensures var c := HoleList(y, Model.Carve(b, need, HoleSize(y), temporary));
            if b.size < need + 2 + HoleSize(y) then c == []
            else c == [if temporary then b.start + need + 3 else b.start + 1]
  {
    var c := Model.Carve(b, need, HoleSize(y), temporary);
    var first, last := c[0], c[|c| - 1];
    SmallHoles(y, first, last);
    SmallHoles(y, last, first);
    assert c == if |c| == 2 then [first, last] else [first];
  }

  /** What carving hole i does to the hole list. */
  lemma CarveHoles(y: Layout, bs: seq<Block>, i: int, need: nat, temporary: bool)
    requires 0 <= i < |bs| && IsHole(bs[i], HoleSize(y))
    ensures var s, k, b := HoleList(y, bs), HolesBefore(y, bs, i), bs[i];
            var t := HoleList(y, Splice(bs, i, i + 1, Model.Carve(b, need, HoleSize(y), temporary)));
            && k < |s| && s[k] == b.start + 1
            && if b.size < need + 2 + HoleSize(y) then t == RemoveAt(s, k)
               else if temporary then t == InsertAt(RemoveAt(s, k), k, b.start + need + 3)
               else t == s
  {
    assert bs[i..i + 1] == [bs[i]];
    SmallHoles(y, bs[i], bs[i]);
    CarvedHoles(y, bs[i], need, temporary);
    SpliceOneHole(y, bs, i, i + 1, Model.Carve(bs[i], need, HoleSize(y), temporary));
  }

  /** The listed neighbours of live block i. */
  predicate HoleBelow(y: Layout, bs: seq<Block>, i: int)
    requires 0 <= i < |bs|
  {
    Model.MergeFrom(bs, i) < i && bs[i - 1].size >= HoleSize(y)
  }

  predicate HoleAbove(y: Layout, bs: seq<Block>, i: int)
    requires 0 <= i < |bs|
  {
    Model.MergeTo(bs, i) > i + 1 && bs[i + 1].size >= HoleSize(y)
  }

  lemma HolesAround(y: Layout, below: seq<Block>, b: Block, above: seq<Block>)
    requires b.live
    ensures HoleList(y, below + [b] + above) == HoleList(y, below) + HoleList(y, above)
  {
    HolesConcat(below + [b], above, HoleSize(y));
    HolesConcat(below, [b], HoleSize(y));
    SmallHoles(y, b, b);
  }

  /** The part of the run below block i, and the part above it. */
  lemma RunParts(bs: seq<Block>, i: int)
    requires 0 <= i < |bs|
    ensures var lo, hi := Model.MergeFrom(bs, i), Model.MergeTo(bs, i);
            && bs[lo..i] == (if lo < i then [bs[i - 1]] else [])
            && bs[i + 1..hi] == (if i + 1 < hi then [bs[i + 1]] else [])
            && bs[lo..hi] == bs[lo..i] + [bs[i]] + bs[i + 1..hi]
  {
  }

  lemma OptionalHole(y: Layout, bs: seq<Block>, some: bool, b: Block)
    requires some ==> !b.live
    requires bs == if some then [b] else []
    ensures HoleList(y, bs) == if some && b.size >= HoleSize(y) then [b.start + 1] else []
  {
    SmallHoles(y, b, b);
  }

  lemma RunHoles(y: Layout, bs: seq<Block>, i: int)
    requires 0 <= i < |bs| && bs[i].live
    ensures HoleList(y, bs[Model.MergeFrom(bs, i)..Model.MergeTo(bs, i)]) ==
            (if HoleBelow(y, bs, i) then [bs[i - 1].start + 1] else []) + (if HoleAbove(y, bs, i) then [bs[i + 1].start + 1] else [])
  {
    var lo, hi := Model.MergeFrom(bs, i), Model.MergeTo(bs, i);
    var below, above := bs[lo..i], bs[i + 1..hi];
    RunParts(bs, i);
    HolesAround(y, below, bs[i], above);
    OptionalHole(y, below, lo < i, bs[if lo < i then i - 1 else i]);
    OptionalHole(y, above, i + 1 < hi, bs[if i + 1 < hi then i + 1 else i]);
  }

  /** What freeing live block i does to the hole list when the run has a listed hole on top: its
      descriptor goes, and unless there is one at the bottom already, one appears there. */
  lemma MergeHolesAbove(y: Layout, bs: seq<Block>, i: int) returns (k: int)
    requires 0 <= i < |bs| && bs[i].live && y.ptr >= 1 && HoleAbove(y, bs, i) && Model.Merged(bs, i).size >= HoleSize(y)
    ensures 0 <= k < |HoleList(y, bs)| && HoleList(y, bs)[k] == bs[i + 1].start + 1
    ensures HoleBelow(y, bs, i) ==> HoleList(y, Model.FreeBlocks(bs, i)) == RemoveAt(HoleList(y, bs), k)
    ensures !HoleBelow(y, bs, i) ==>
              HoleList(y, Model.FreeBlocks(bs, i)) == InsertAt(RemoveAt(HoleList(y, bs), k), k, Model.Merged(bs, i).start + 1)
  {
    var lo, hi, b := Model.MergeFrom(bs, i), Model.MergeTo(bs, i), Model.Merged(bs, i);
    RunHoles(y, bs, i);
    SmallHoles(y, b, b);
    if HoleBelow(y, bs, i) {
      SpliceTwoHoles(y, bs, lo, hi, [b]);
      k := HolesBefore(y, bs, lo) + 1;
    } else {
      SpliceOneHole(y, bs, lo, hi, [b]);
      k := HolesBefore(y, bs, lo);
    }
  }

  /** ... and when it has none on top: a descriptor appears at the bottom if the merged block is large
      enough and none was there. */
  lemma MergeHolesAlone(y: Layout, bs: seq<Block>, i: int)
    requires 0 <= i < |bs| && bs[i].live && y.ptr >= 1 && !HoleAbove(y, bs, i)
    requires HoleBelow(y, bs, i) ==> Model.Merged(bs, i).size >= HoleSize(y)
    ensures var s, k, b := HoleList(y, bs), HolesBefore(y, bs, Model.MergeFrom(bs, i)), Model.Merged(bs, i);
            && k <= |s|
            && HoleList(y, Model.FreeBlocks(bs, i)) ==
               if !HoleBelow(y, bs, i) && b.size >= HoleSize(y) then InsertAt(s, k, b.start + 1) else s
    ensures !HoleBelow(y, bs, i) ==> !IsHole(bs[Model.MergeFrom(bs, i)], HoleSize(y))
  {
    var lo, hi, b := Model.MergeFrom(bs, i), Model.MergeTo(bs, i), Model.Merged(bs, i);
    RunHoles(y, bs, i);
    SmallHoles(y, b, b);
    if HoleBelow(y, bs, i) {
      assert HoleList(y, bs[lo..hi]) == [bs[i - 1].start + 1];
      SpliceOneHole(y, bs, lo, hi, [b]);
    } else {
      assert HoleList(y, bs[lo..hi]) == [];
      SpliceNoHole(y, bs, lo, hi, [b]);
    }
  }

  // ----- Adding a region

  /** Writing outside all regions and the list head disturbs nothing. */
  lemma OutsideKeepsStored(m: seq<int>, y: Layout, head: int, rs: seq<Region>, bs: seq<Block>, a: int, v: int)
    requires Geometry(|m|, y, head, rs) && Tiled(rs, bs) && Stored(m, y, head, bs) && 0 <= a < |m|
    requires forall r :: 0 <= r < |rs| ==> !(rs[r].lo <= a <= rs[r].hi)
    requires !(head <= a < head + HoleSize(y))
    ensures Stored(m[a := v], y, head, bs)
  {
    var s := HoleList(y, bs);
    forall k | 0 <= k < |bs|
      ensures TagsAt(m[a := v], bs[k])
    {
      assert TagsAt(m, bs[k]) && WellPlaced(rs, bs[k]);
    }
    forall k | 0 <= k <= |s|
      ensures Rec(y, head, s, k) != a && Rec(y, head, s, k) + y.ptr != a
    {
      if k > 0 {
        HoleRec(y, head, bs, k);
        assert WellPlaced(rs, bs[HoleIndex(bs, HoleSize(y), k - 1)]);
      }
    }
    forall k | 0 <= k <= |s|
      ensures m[a := v][Rec(y, head, s, k)] == EntryAt(s, k)
      ensures m[a := v][Back(y, head, s, k)] == Rec(y, head, s, k)
    {
      assert Rec(y, head, s, Succ(s, k)) + y.ptr != a;
      assert m[Back(y, head, s, k)] == Rec(y, head, s, k);
    }
  }

  lemma NewTagsKeep(m: seq<int>, y: Layout, head: int, rs: seq<Region>, bs: seq<Block>, start: int, words: int, v: int)
    requires Geometry(|m|, y, head, rs) && Tiled(rs, bs) && Stored(m, y, head, bs)
    requires words >= 3 && start > 0 && start + words <= |m| && OutsideHead(y, head, Region(start, start + words - 1))
    requires forall r :: 0 <= r < |rs| ==> Model.DisjointRegions(rs[r], Region(start, start + words - 1))
    ensures Stored(m[start := v][start + words - 1 := v], y, head, bs)
    ensures forall i, a {:trigger Inside(bs[i], a)} :: 0 <= i < |bs| && bs[i].live && Inside(bs[i], a) ==> a != start && a != start + words - 1
  {
    OutsideKeepsStored(m, y, head, rs, bs, start, v);
    OutsideKeepsStored(m[start := v], y, head, rs, bs, start + words - 1, v);
    forall i, a | 0 <= i < |bs| && bs[i].live && Inside(bs[i], a)
      ensures a != start && a != start + words - 1
    {
      assert WellPlaced(rs, bs[i]);
    }
  }

  /** A new region's hole is listed where its address belongs. */
  lemma NewHolePlace(y: Layout, rs: seq<Region>, bs: seq<Block>, start: int, words: int)
    requires Tiled(rs, bs) && words >= HoleSize(y) + 2 && words >= 3
    requires forall r :: 0 <= r < |rs| ==> Model.DisjointRegions(rs[r], Region(start, start + words - 1))
    ensures var s, at := HoleList(y, bs), Model.Position(bs, start);
            var k := HolesBefore(y, bs, at);
            && k <= |s|
            && HoleList(y, Splice(bs, at, at, [Model.RegionBlock(rs, start, words)])) == InsertAt(s, k, start + 1)
            && (forall j :: 0 <= j < |s| ==> s[j] != start + 1 && (s[j] < start + 1 <==> j < k))
  {
    var at, b := Model.Position(bs, start), Model.RegionBlock(rs, start, words);
    assert bs[at..at] == [];
    SmallHoles(y, b, b);
    SpliceNoHole(y, bs, at, at, [b]);
    forall j | 0 <= j < |HoleList(y, bs)|
      ensures HoleList(y, bs)[j] != start + 1 && (HoleList(y, bs)[j] < start + 1 <==> j < HolesBefore(y, bs, at))
    {
      var i := HoleIndex(bs, HoleSize(y), j);
      Model.NewRegionApart(rs, bs, start, words, i);
      assert WellPlaced(rs, bs[i]);
      HolesPrefix(bs, HoleSize(y), if i < at then i else at, if i < at then at else i);
    }
  }

  /** The tiling with the new region's block in it, and where its descriptor goes. */
  lemma NewTiling(y: Layout, rs: seq<Region>, bs: seq<Block>, start: int, words: int) returns (at: int, t: seq<Block>,
          k: int)
    requires Tiled(rs, bs) && Coalesced(bs) && words >= HoleSize(y) + 2 && words >= 3
    requires forall r :: 0 <= r < |rs| ==> Model.DisjointRegions(rs[r], Region(start, start + words - 1))
    ensures at == Model.Position(bs, start) && t == Splice(bs, at, at, [Model.RegionBlock(rs, start, words)])
    ensures k == HolesBefore(y, bs, at) <= |HoleList(y, bs)|
    ensures Tiled(rs + [Region(start, start + words - 1)], t) && Coalesced(t)
    ensures HoleList(y, t) == InsertAt(HoleList(y, bs), k, start + 1)
    ensures HolesOnly(y, t, HoleList(y, bs))
    ensures 0 <= at < |t| && t[at] == Model.RegionBlock(rs, start, words)
  {
    at := Model.Position(bs, start);
    t := Splice(bs, at, at, [Model.RegionBlock(rs, start, words)]);
    k := HolesBefore(y, bs, at);
    Model.AddRegionTiled(rs, bs, start, words, t);
    Model.InsertCoalesced(rs, bs, start, words);
    NewHolePlace(y, rs, bs, start, words);
    SpliceAt(bs, at, at, [Model.RegionBlock(rs, start, words)], at);
    var s := HoleList(y, bs);
    forall j | 0 <= j < |s|
      ensures s[j] in HoleList(y, t)
    {
      assert HoleList(y, t)[if j < k then j else j + 1] == s[j];
    }
  }

  /** Listing a descriptor of tiling t writes none of t's tags. */
  lemma InsertKeepsTag(m: seq<int>, m': seq<int>, y: Layout, head: int, rs: seq<Region>, t: seq<Block>, s: seq<int>,
          k: int, e: int, j: int, a: int)
    requires Geometry(|m|, y, head, rs) && Tiled(rs, t) && 0 <= k <= |s| && HoleList(y, t) == InsertAt(s, k, e)
    requires Placed(|m|, y, head, s) && CanJoin(|m|, y, head, s, e) && Inserted(m, m', y, head, s, k, e)
    requires 0 <= j < |t| && (a == t[j].start || a == t[j].Last())
    ensures 0 <= a < |m| && m'[a] == m[a]
  {
    assert WellPlaced(rs, t[j]);
    var back := if k == |s| then 0 else k + 2;
    InsertRec(y, head, s, k, e, k);
    InsertRec(y, head, s, k, e, k + 1);
    InsertRec(y, head, s, k, e, back);
    WordOffList(|m|, y, head, rs, t, j, a, k);
    WordOffList(|m|, y, head, rs, t, j, a, k + 1);
    WordOffList(|m|, y, head, rs, t, j, a, back);
  }

  lemma InsertKeepsTags(m: seq<int>, m': seq<int>, y: Layout, head: int, rs: seq<Region>, t: seq<Block>, s: seq<int>,
          k: int, j: int)
    requires Geometry(|m|, y, head, rs) && Tiled(rs, t) && 0 <= j < |t| && 0 <= k <= |s|
    requires HoleList(y, t) == InsertAt(s, k, t[j].start + 1)
    requires Placed(|m|, y, head, s) && CanJoin(|m|, y, head, s, t[j].start + 1)
    requires Inserted(m, m', y, head, s, k, t[j].start + 1)
    ensures 0 <= t[j].start <= t[j].Last() < |m| == |m'|
    ensures m'[t[j].start] == m[t[j].start] && m'[t[j].Last()] == m[t[j].Last()]
  {
    assert WellPlaced(rs, t[j]);
    InsertKeepsTag(m, m', y, head, rs, t, s, k, t[j].start + 1, j, t[j].start);
    InsertKeepsTag(m, m', y, head, rs, t, s, k, t[j].start + 1, j, t[j].Last());
  }

  /** The old tiling with the new region's block in it, before that block is listed. */
  lemma NewRegionTags(m: seq<int>, m': seq<int>, y: Layout, head: int, rs: seq<Region>, bs: seq<Block>, start: int,
          words: int)
    requires Geometry(|m|, y, head, rs) && Tiled(rs, bs) && Tagged(m, bs)
    requires words >= 3 && start > 0 && start + words <= |m| && OutsideHead(y, head, Region(start, start + words - 1))
    requires forall r :: 0 <= r < |rs| ==> Model.DisjointRegions(rs[r], Region(start, start + words - 1))
    requires var at := Model.Position(bs, start);
             var t := Splice(bs, at, at, [Model.RegionBlock(rs, start, words)]);
             at < |t| && Quiet(m, m', y, head, t, at, at + 1)
    requires m[start] == m[start + words - 1] == -(words - 2)
    requires m'[start] == m[start] && m'[start + words - 1] == m[start + words - 1]
    ensures var at := Model.Position(bs, start);
            Tagged(m', Splice(bs, at, at, [Model.RegionBlock(rs, start, words)]))
  {
    var at, b, rs' := Model.Position(bs, start), Model.RegionBlock(rs, start, words), rs + [Region(start, start + words - 1)];
    var t := Splice(bs, at, at, [b]);
    Model.AddRegionTiled(rs, bs, start, words, t);
    SpliceAt(bs, at, at, [b], at);
    forall k | 0 <= k < |t|
      ensures TagsAt(m', t[k])
    {
      SpliceAt(bs, at, at, [b], k);
      if k != at {
        assert TagsAt(m, bs[if k < at then k else k - 1]);
        OthersProtected(y, head, rs', t, at, at + 1, k, t[k].start);
        OthersProtected(y, head, rs', t, at, at + 1, k, t[k].Last());
      }
    }
  }

  /** The payload of a live block is protected although a block is put in at position `at`. */
  lemma ShiftedProtected(y: Layout, head: int, rs: seq<Region>, bs: seq<Block>, at: int, b: Block, i: int, a: int)
    requires 0 <= at <= |bs| && Tiled(rs, Splice(bs, at, at, [b]))
    requires forall r :: 0 <= r < |rs| ==> OutsideHead(y, head, rs[r])
    requires 0 <= i < |bs| && bs[i].live && Inside(bs[i], a)
    ensures at + 1 <= |Splice(bs, at, at, [b])| && Protected(y, head, Splice(bs, at, at, [b]), at, at + 1, a)
  {
    var k := if i < at then i else i + 1;
    SpliceAt(bs, at, at, [b], k);
    OthersProtected(y, head, rs, Splice(bs, at, at, [b]), at, at + 1, k, a);
  }

  lemma NewRegionPayloads(m: seq<int>, m': seq<int>, y: Layout, head: int, rs: seq<Region>, bs: seq<Block>,
          start: int, words: int)
    requires Geometry(|m|, y, head, rs) && Tiled(rs, bs) && Tagged(m, bs)
    requires words >= 3 && start > 0 && start + words <= |m| && OutsideHead(y, head, Region(start, start + words - 1))
    requires forall r :: 0 <= r < |rs| ==> Model.DisjointRegions(rs[r], Region(start, start + words - 1))
    requires var at := Model.Position(bs, start);
             var t := Splice(bs, at, at, [Model.RegionBlock(rs, start, words)]);
             at < |t| && Quiet(m, m', y, head, t, at, at + 1)
    ensures forall i, a {:trigger Inside(bs[i], a)} :: 0 <= i < |bs| && bs[i].live && Inside(bs[i], a) && 0 <= a < |m| ==> m'[a] == m[a]
  {
    var at, b, rs' := Model.Position(bs, start), Model.RegionBlock(rs, start, words), rs + [Region(start, start + words - 1)];
    var t := Splice(bs, at, at, [b]);
    Model.AddRegionTiled(rs, bs, start, words, t);
    assert forall r :: 0 <= r < |rs'| ==> OutsideHead(y, head, rs'[r]);
    forall i, a | 0 <= i < |bs| && bs[i].live && Inside(bs[i], a) && 0 <= a < |m|
      ensures m'[a] == m[a]
    {
      ShiftedProtected(y, head, rs', bs, at, b, i, a);
    }
  }

  lemma NewRegionQuiet(m: seq<int>, m': seq<int>, y: Layout, head: int, rs: seq<Region>, bs: seq<Block>, start: int,
          words: int)
    requires Geometry(|m|, y, head, rs) && Tiled(rs, bs) && Tagged(m, bs)
    requires words >= 3 && start > 0 && start + words <= |m| && OutsideHead(y, head, Region(start, start + words - 1))
    requires forall r :: 0 <= r < |rs| ==> Model.DisjointRegions(rs[r], Region(start, start + words - 1))
    requires var at := Model.Position(bs, start);
             var t := Splice(bs, at, at, [Model.RegionBlock(rs, start, words)]);
             at < |t| && Quiet(m, m', y, head, t, at, at + 1)
    requires m[start] == m[start + words - 1] == -(words - 2)
    requires m'[start] == m[start] && m'[start + words - 1] == m[start + words - 1]
    ensures var at := Model.Position(bs, start);
            Tagged(m', Splice(bs, at, at, [Model.RegionBlock(rs, start, words)]))
    ensures forall i, a {:trigger Inside(bs[i], a)} :: 0 <= i < |bs| && bs[i].live && Inside(bs[i], a) && 0 <= a < |m| ==> m'[a] == m[a]
  {
    NewRegionTags(m, m', y, head, rs, bs, start, words);
    NewRegionPayloads(m, m', y, head, rs, bs, start, words);
  }
}
