/** Bit strings in network order, as in common_functions.c: bit 0 is the top bit of byte 0. */
module Bits {

  /** The byte with only bit k set. */
  function Hot(k: nat): bv8
    requires k < 8
  {
    match k
    case 0 => 0x80
    case 1 => 0x40
    case 2 => 0x20
    case 3 => 0x10
    case 4 => 0x08
    case 5 => 0x04
    case 6 => 0x02
    case _ => 0x01
  }

  /** Bit k of one byte. */
  predicate Bit(b: bv8, k: nat)
    requires k < 8
  {
    b & Hot(k) != 0
  }

  /** bit_test: bit j of a bit string. */
  predicate BitTest(bits: seq<bv8>, j: nat)
    requires j < 8 * |bits|
  {
    Bit(bits[j / 8], j % 8)
  }

  /** context_split_mask: the byte -(0x100 >> split), whose top `split` bits are set. */
  function ContextSplitMask(split: nat): bv8
    requires split <= 8
  {
    ((0 as bv16 - ((0x100 as bv16) >> split)) & 0xFF) as bv8
  }

  lemma MaskTable(split: nat, k: nat)
    requires 0 < split < 8 && k < 8
    ensures Bit(ContextSplitMask(split), k) <==> k < split
  {
    var m := ContextSplitMask(split);
    assert m == if split == 1 then 0x80 else if split == 2 then 0xC0 else if split == 3 then 0xE0 else
                if split == 4 then 0xF0 else if split == 5 then 0xF8 else if split == 6 then 0xFC else 0xFE;
    assert Bit(m, 0) && !Bit(m, 7);
    assert (Bit(m, 1) <==> split > 1) && (Bit(m, 2) <==> split > 2) && (Bit(m, 3) <==> split > 3);
    assert (Bit(m, 4) <==> split > 4) && (Bit(m, 5) <==> split > 5) && (Bit(m, 6) <==> split > 6);
  }

  /** Bitwise and, or and complement act bit by bit. */
  lemma Bitwise(x: bv8, y: bv8, m: bv8, k: nat)
    requires k < 8
    ensures Bit(x & m, k) <==> Bit(x, k) && Bit(m, k)
    ensures Bit((x & m) | (y & !m), k) <==> if Bit(m, k) then Bit(x, k) else Bit(y, k)
  {
    HotIsSingle(k);
    BitwiseAt(x, y, m, Hot(k));
  }

  lemma HotIsSingle(k: nat)
    requires k < 8
    ensures Hot(k) != 0 && Hot(k) & (Hot(k) - 1) == 0
  {
    match k
    case 0 => case 1 => case 2 => case 3 => case 4 => case 5 => case 6 => case _ =>
  }

  lemma BitwiseAt(x: bv8, y: bv8, m: bv8, p: bv8)
    requires p != 0 && p & (p - 1) == 0
    ensures x & m & p != 0 <==> x & p != 0 && m & p != 0
    ensures ((x & m) | (y & !m)) & p != 0 <==> if m & p != 0 then x & p != 0 else y & p != 0
  {
  }

  /** A byte is its bits. */
  lemma SameBits(x: bv8, y: bv8)
    requires forall k: nat :: k < 8 ==> Bit(x, k) == Bit(y, k)
    ensures x == y
  {
    assert Bit(x, 0) == Bit(y, 0) && Bit(x, 1) == Bit(y, 1) && Bit(x, 2) == Bit(y, 2) && Bit(x, 3) == Bit(y, 3);
    assert Bit(x, 4) == Bit(y, 4) && Bit(x, 5) == Bit(y, 5) && Bit(x, 6) == Bit(y, 6) && Bit(x, 7) == Bit(y, 7);
  }

  // ---------- a byte and its number ----------

  lemma IntBack(b: bv8)
    ensures (b as int) as bv8 == b
  {
  }

  lemma ByteBack(n: nat)
    requires n < 256
    ensures (n as bv8) as int == n
  {
    var hi, lo := (n / 16) as bv4, (n % 16) as bv4;
    NibbleBack(n / 16);
    NibbleBack(n % 16);
    PasteNibbles(hi, lo);
    IntBack(((hi as bv8) << 4) | (lo as bv8));
  }

  lemma NibbleBack(n: nat)
    requires n < 16
    ensures (n as bv4) as int == n
  {
  }

  lemma PasteNibbles(hi: bv4, lo: bv4)
    ensures (((hi as bv8) << 4) | (lo as bv8)) as int == 16 * (hi as int) + (lo as int)
  {
  }

  // ---------- comparing and copying ----------

  /** bitsequal: whole bytes first, then the masked rest. */
  predicate Bitsequal(a: seq<bv8>, b: seq<bv8>, bits: nat)
    requires bits <= 8 * |a| && bits <= 8 * |b|
  {
    a[..bits / 8] == b[..bits / 8] &&
    (bits % 8 != 0 ==> a[bits / 8] & ContextSplitMask(bits % 8) == b[bits / 8] & ContextSplitMask(bits % 8))
  }

  /** bitsequal holds exactly when the first `bits` bits agree one by one. */
  lemma BitsequalComparesBits(a: seq<bv8>, b: seq<bv8>, bits: nat)
    requires bits <= 8 * |a| && bits <= 8 * |b|
    ensures Bitsequal(a, b, bits) <==> forall j: nat :: j < bits ==> BitTest(a, j) == BitTest(b, j)
  {
    if Bitsequal(a, b, bits) {
      forall j: nat | j < bits ensures BitTest(a, j) == BitTest(b, j) {
        EqualBytesEqualBit(a, b, bits, j);
      }
    }
    if forall j: nat :: j < bits ==> BitTest(a, j) == BitTest(b, j) {
      forall i: nat | i < bits / 8 ensures a[i] == b[i] {
        ByteFromBits(a, b, bits, i);
      }
      if bits % 8 != 0 {
        LastByteFromBits(a, b, bits);
      }
    }
  }

  lemma EqualBytesEqualBit(a: seq<bv8>, b: seq<bv8>, bits: nat, j: nat)
    requires j < bits <= 8 * |a| && bits <= 8 * |b| && Bitsequal(a, b, bits)
    ensures BitTest(a, j) == BitTest(b, j)
  {
    var i, k := j / 8, j % 8;
    if i < bits / 8 {
      assert a[i] == a[..bits / 8][i] && b[i] == b[..bits / 8][i];
    } else {
      MaskedBit(a[i], bits % 8, k);
      MaskedBit(b[i], bits % 8, k);
    }
  }

  lemma ByteFromBits(a: seq<bv8>, b: seq<bv8>, bits: nat, i: nat)
    requires bits <= 8 * |a| && bits <= 8 * |b| && i < bits / 8
    requires forall j: nat :: j < bits ==> BitTest(a, j) == BitTest(b, j)
    ensures a[i] == b[i]
  {
    forall k: nat | k < 8 ensures Bit(a[i], k) == Bit(b[i], k) {
      assert BitTest(a, 8 * i + k) == BitTest(b, 8 * i + k);
    }
    SameBits(a[i], b[i]);
  }

  lemma LastByteFromBits(a: seq<bv8>, b: seq<bv8>, bits: nat)
    requires bits <= 8 * |a| && bits <= 8 * |b| && bits % 8 != 0
    requires forall j: nat :: j < bits ==> BitTest(a, j) == BitTest(b, j)
    ensures a[bits / 8] & ContextSplitMask(bits % 8) == b[bits / 8] & ContextSplitMask(bits % 8)
  {
    var i, split := bits / 8, bits % 8;
    forall k: nat | k < split ensures Bit(a[i], k) == Bit(b[i], k) {
      assert BitTest(a, 8 * i + k) == BitTest(b, 8 * i + k);
    }
    forall k: nat | k < 8 ensures Bit(ContextSplitMask(split), k) <==> k < split {
      MaskTable(split, k);
    }
    MaskedEqual(a[i], b[i], ContextSplitMask(split));
  }

  /** Bytes that agree wherever the mask is set are equal under the mask. */
  lemma MaskedEqual(x: bv8, y: bv8, m: bv8)
    requires forall k: nat :: k < 8 && Bit(m, k) ==> Bit(x, k) == Bit(y, k)
    ensures x & m == y & m
  {
    var p, q := x & m, y & m;
    forall k: nat | k < 8 ensures Bit(p, k) == Bit(q, k) {
      Bitwise(x, 0, m, k);
      Bitwise(y, 0, m, k);
    }
    SameBits(p, q);
  }

  /** Masking keeps the top `split` bits and clears the others. */
  lemma MaskedBit(x: bv8, split: nat, k: nat)
    requires 0 < split < 8 && k < 8
    ensures Bit(x & ContextSplitMask(split), k) <==> k < split && Bit(x, k)
  {
    MaskTable(split, k);
    Bitwise(x, 0, ContextSplitMask(split), k);
  }

  /** Merging under the mask takes the top `split` bits from x and the others from y. */
  lemma MergedBit(x: bv8, y: bv8, split: nat, k: nat)
    requires 0 < split < 8 && k < 8
    ensures Bit((x & ContextSplitMask(split)) | (y & !ContextSplitMask(split)), k) <==>
              if k < split then Bit(x, k) else Bit(y, k)
  {
    MaskTable(split, k);
    Bitwise(x, y, ContextSplitMask(split), k);
  }

  /** Byte strings that agree in every bit are equal. */
  lemma BytesFromBits(a: seq<bv8>, b: seq<bv8>)
    requires |a| == |b|
    requires forall j: nat :: j < 8 * |a| ==> BitTest(a, j) == BitTest(b, j)
    ensures a == b
  {
    forall i: nat | i < |a| ensures a[i] == b[i] {
      ByteFromBits(a, b, 8 * |a|, i);
    }
  }

  /** memcpy(dst, src, n) over separate buffers. */
  method Memcpy(dst: array<bv8>, src: seq<bv8>, n: nat)
    requires n <= dst.Length && n <= |src|
    modifies dst
    ensures dst[..] == src[..n] + old(dst[n..])
  {
    for i := 0 to n
      invariant forall k :: 0 <= k < dst.Length ==> dst[k] == if k < i then src[k] else old(dst[k])
    {
      dst[i] := src[i];
    }
  }

  /**
    * bitcopy: the first `bits` bits come from src and every other bit of dst stays.
    * The result is the index of the byte the returned pointer addresses.
    */
  method Bitcopy(dst: array<bv8>, src: seq<bv8>, bits: nat) returns (end: nat)
    requires bits <= 8 * dst.Length && bits <= 8 * |src|
    modifies dst
    ensures end == bits / 8
    ensures forall j: nat :: j < 8 * dst.Length ==>
              (BitTest(dst[..], j) <==> if j < bits then BitTest(src, j) else old(BitTest(dst[..], j)))
  {
    end := bits / 8;
    var split := bits % 8;
    ghost var was := dst[..];
    CopyBytes(dst, src, end, split);
    BytesToBits(was, dst[..], src, end, split);
  }

  /** The whole bytes, and then the first bits of one more. */
  method CopyBytes(dst: array<bv8>, src: seq<bv8>, end: nat, split: nat)
    requires split < 8 && 8 * end + split <= 8 * dst.Length && 8 * end + split <= 8 * |src|
    modifies dst
    ensures Copied(old(dst[..]), dst[..], src, end, split)
  {
    if end != 0 {
      Memcpy(dst, src, end);
    }
    if split != 0 {
      var m := ContextSplitMask(split);
      dst[end] := (src[end] & m) | (dst[end] & !m);
    }
  }

  ghost predicate Copied(was: seq<bv8>, now: seq<bv8>, src: seq<bv8>, end: nat, split: nat)
    requires split < 8 && 8 * end + split <= 8 * |was| && 8 * end + split <= 8 * |src|
  {
    && |now| == |was|
    && (forall i: nat :: i < end ==> now[i] == src[i])
    && (forall i: nat :: end < i < |was| ==> now[i] == was[i])
    && (end < |was| ==> now[end] == if split == 0 then was[end] else
                          (src[end] & ContextSplitMask(split)) | (was[end] & !ContextSplitMask(split)))
  }

  lemma BytesToBits(was: seq<bv8>, now: seq<bv8>, src: seq<bv8>, end: nat, split: nat)
    requires split < 8 && 8 * end + split <= 8 * |was| && 8 * end + split <= 8 * |src|
    requires Copied(was, now, src, end, split)
    ensures forall j: nat :: j < 8 * |now| ==>
              (BitTest(now, j) <==> if j < 8 * end + split then BitTest(src, j) else BitTest(was, j))
  {
    forall j: nat | j < 8 * |now|
      ensures BitTest(now, j) <==> if j < 8 * end + split then BitTest(src, j) else BitTest(was, j)
    {
      if split != 0 && j / 8 == end {
        MergedBit(src[end], was[end], split, j % 8);
      }
    }
  }

  /** bitcopy0: as bitcopy, but the rest of a partly copied byte is cleared. */
  method Bitcopy0(dst: array<bv8>, src: seq<bv8>, bits: nat) returns (end: nat)
    requires bits <= 8 * dst.Length && bits <= 8 * |src|
    modifies dst
    ensures end == bits / 8
    ensures forall j: nat :: j < 8 * dst.Length ==>
              (BitTest(dst[..], j) <==>
               if j < bits then BitTest(src, j) else (8 * ((bits + 7) / 8) <= j && old(BitTest(dst[..], j))))
  {
    end := bits / 8;
    var split := bits % 8;
    if end != 0 {
      Memcpy(dst, src, end);
    }
    if split != 0 {
      dst[end] := src[end] & ContextSplitMask(split);
    }
    ghost var was, now := old(dst[..]), dst[..];
    forall j: nat | j < 8 * dst.Length
      ensures BitTest(now, j) <==>
                if j < bits then BitTest(src, j) else (8 * ((bits + 7) / 8) <= j && BitTest(was, j))
    {
      if split != 0 && j / 8 == end {
        MaskedBit(src[end], split, j % 8);
      }
    }
  }
}
