/** The Internet checksum of ip_fsc.c: a gather list summed in 32 bits and folded to 16. */
module Checksum {

  type byte = x: int | 0 <= x < 256
  type uint16 = x: int | 0 <= x < 0x1_0000

  // ---------- sums of 16-bit words ----------

  /** Two bytes in network order. */
  function Word(hi: byte, lo: byte): uint16 { 256 * (hi as int) + lo }

  /** The plain sum of the big-endian words of b, an odd last byte padded with zero. */
  function WordSum(b: seq<byte>): nat {
    if b == [] then 0
    else if |b| == 1 then Word(b[0], 0)
    else Word(b[0], b[1]) + WordSum(b[2..])
  }

  /** 16-bit one's-complement addition: the carry out goes back in at the low end. */
  function OnesAdd(x: uint16, y: uint16): uint16 {
    if x + y > 0xFFFF then x + y - 0xFFFF else x + y
  }

  /** The one's-complement sum of section 1 of RFC 1071. */
  function OnesSum(b: seq<byte>): uint16 {
    if b == [] then 0
    else if |b| == 1 then Word(b[0], 0)
    else OnesAdd(Word(b[0], b[1]), OnesSum(b[2..]))
  }

  /** The 16-bit representative of a sum modulo 0xFFFF; only zero itself gives 0. */
  function Norm(s: nat): uint16 {
    if s == 0 then 0 else 1 + (s - 1) % 0xFFFF
  }

  lemma NormShift(s: nat, k: nat)
    requires s > 0
    ensures Norm(s + 0xFFFF * k) == Norm(s)
  {
    assert (s - 1 + 0xFFFF * k) % 0xFFFF == (s - 1) % 0xFFFF;
  }

  lemma NormSmall(s: nat)
    requires s <= 2 * 0xFFFF
    ensures Norm(s) == if s > 0xFFFF then s - 0xFFFF else s
  {
  }

  lemma NormAdd(w: uint16, s: nat)
    ensures Norm(w + s) == OnesAdd(w, Norm(s))
  {
    if s > 0 {
      var k := (s - 1) / 0xFFFF;
      assert s == Norm(s) + 0xFFFF * k;
      NormShift(w + Norm(s), k);
    }
    NormSmall(w + Norm(s));
  }

  /** The one's-complement sum is the plain sum modulo 0xFFFF. */
  lemma {:induction false} OnesSumIsNorm(b: seq<byte>)
    ensures OnesSum(b) == Norm(WordSum(b))
  {
    if |b| == 1 {
      NormSmall(Word(b[0], 0));
    } else if |b| > 1 {
      OnesSumIsNorm(b[2..]);
      NormAdd(Word(b[0], b[1]), WordSum(b[2..]));
    }
  }

  /** It is the number from 1 to 0xFFFF that differs from the plain sum by a multiple of 0xFFFF, or 0 if and only
      if all bytes are zero. */
  lemma OnesSumDetermined(b: seq<byte>)
    ensures (WordSum(b) - OnesSum(b)) % 0xFFFF == 0
    ensures OnesSum(b) == 0 <==> forall i :: 0 <= i < |b| ==> b[i] == 0
  {
    OnesSumIsNorm(b);
    NormResidue(WordSum(b));
    WordSumZero(b);
  }

  lemma NormResidue(s: nat)
    ensures (s - Norm(s)) % 0xFFFF == 0 && (Norm(s) == 0 <==> s == 0)
  {
    if s > 0 {
      assert s - Norm(s) == 0xFFFF * ((s - 1) / 0xFFFF);
    }
  }

  lemma {:induction false} WordSumZero(b: seq<byte>)
    ensures WordSum(b) == 0 <==> forall i :: 0 <= i < |b| ==> b[i] == 0
  {
    if |b| == 1 {
      assert WordSum(b) == 256 * (b[0] as int);
    } else if |b| > 1 {
      WordSumZero(b[2..]);
      assert forall i :: 2 <= i < |b| ==> b[i] == b[2..][i - 2];
    }
  }

  // ---------- appending ----------

  /** One more byte counts as a low byte after an odd number of bytes, and as a high byte otherwise. */
  lemma {:induction false} WordSumSnoc(b: seq<byte>, x: byte)
    ensures WordSum(b + [x]) == WordSum(b) + if |b| % 2 == 1 then x else 256 * (x as int)
  {
    if |b| > 1 {
      WordSumSnoc(b[2..], x);
      assert (b + [x])[2..] == b[2..] + [x];
    } else if |b| == 1 {
      assert (b + [x])[2..] == [];
    }
  }

  lemma {:induction false} WordSumConcat(b: seq<byte>, c: seq<byte>)
    requires |b| % 2 == 0
    ensures WordSum(b + c) == WordSum(b) + WordSum(c)
    decreases |b|
  {
    if b == [] {
      assert b + c == c;
    } else {
      WordSumConcat(b[2..], c);
      assert (b + c)[2..] == b[2..] + c;
    }
  }

  lemma {:induction false} WordSumBound(b: seq<byte>)
    ensures WordSum(b) <= 0xFFFF * ((|b| + 1) / 2)
  {
    if |b| > 1 {
      WordSumBound(b[2..]);
    }
  }

  // ---------- folding ----------

  /** uint32_t arithmetic */
  function Wrap32(s: nat): (r: nat)
    ensures r < 0x1_0000_0000
  {
    s % 0x1_0000_0000
  }

  /** (acc >> 16) + (acc & 0xffff) */
  function Fold(acc: nat): nat { acc / 0x1_0000 + acc % 0x1_0000 }

  /** Two folds of a 32-bit accumulator always leave a 16-bit sum, congruent to the accumulator. */
  lemma TwoFolds(acc: nat)
    requires acc < 0x1_0000_0000
    ensures Fold(Fold(acc)) <= 0xFFFF && Fold(Fold(acc)) == Norm(acc)
  {
    var h, l := acc / 0x1_0000, acc % 0x1_0000;
    if h + l > 0 {
      assert acc == (h + l) + 0xFFFF * h;
      NormShift(h + l, h);
    }
    NormSmall(h + l);
  }

  /** What ip_fcf_v returns for the bytes of its gather list. */
  function Fcf(b: seq<byte>): uint16 {
    0xFFFF - Norm(Wrap32(WordSum(b)))
  }

  /**
    * The result is the complement of the one's-complement sum if and only if the plain sum fits 32
    * bits, or has wrapped a multiple of 0xFFFF times without ending at zero.
    */
  lemma FcfIsComplement(b: seq<byte>)
    ensures Fcf(b) == 0xFFFF - OnesSum(b) <==>
              var wraps := WordSum(b) / 0x1_0000_0000;
              wraps == 0 || (wraps % 0xFFFF == 0 && WordSum(b) % 0x1_0000_0000 != 0)
  {
    OnesSumIsNorm(b);
    WrapNorm(WordSum(b), WordSum(b) / 0x1_0000_0000, WordSum(b) % 0x1_0000_0000);
  }

  lemma WrapNorm(s: nat, wraps: nat, low: nat)
    requires s == 0x1_0000_0000 * wraps + low && low < 0x1_0000_0000
    ensures Norm(low) == Norm(s) <==> wraps == 0 || (wraps % 0xFFFF == 0 && low != 0)
  {
    var t := low + wraps;
    assert s == t + 0xFFFF * (0x1_0001 * wraps);
    if wraps > 0 {
      NormShift(t, 0x1_0001 * wraps);
      if low > 0 {
        NormEqual(low, t);
      }
    }
  }

  lemma NormEqual(x: nat, y: nat)
    requires 0 < x <= y
    ensures Norm(x) == Norm(y) <==> (y - x) % 0xFFFF == 0
  {
  }

  /** Whatever the bytes, 131074 of them always fit. */
  lemma LengthSuffices(b: seq<byte>)
    requires |b| <= 131074
    ensures WordSum(b) < 0x1_0000_0000 && Fcf(b) == 0xFFFF - OnesSum(b)
  {
    WordSumBound(b);
    FcfIsComplement(b);
  }

  function Ones(n: nat): (b: seq<byte>)
    ensures |b| == n
  {
    seq(n, _ => 255)
  }

  lemma {:induction false} OnesWordSum(n: nat)
    ensures WordSum(Ones(2 * n)) == 0xFFFF * n
  {
    if n > 0 {
      assert Ones(2 * n)[2..] == Ones(2 * (n - 1));
      OnesWordSum(n - 1);
    }
  }

  lemma OnesOddWordSum(n: nat)
    ensures WordSum(Ones(2 * n + 1)) == 0xFFFF * n + 0xFF00
  {
    OnesWordSum(n);
    WordSumSnoc(Ones(2 * n), 255);
    assert Ones(2 * n) + [255] == Ones(2 * n + 1);
  }

  lemma Wrapped(b: seq<byte>)
    requires WordSum(b) == 0x1_0000_0000 + 0xFEFF
    ensures Fcf(b) != 0xFFFF - OnesSum(b)
  {
    FcfIsComplement(b);
  }

  /** One byte more can overflow the accumulator, and then the result is wrong. */
  lemma OneByteMore()
    ensures Fcf(Ones(131075)) != 0xFFFF - OnesSum(Ones(131075))
  {
    OnesOddWordSum(65537);
    Wrapped(Ones(131075));
  }

  /** 131074 bytes are the exact limit. */
  lemma LengthLimitIsTight(n: nat)
    ensures (forall b: seq<byte> :: |b| <= n ==> Fcf(b) == 0xFFFF - OnesSum(b)) <==> n <= 131074
  {
    if n <= 131074 {
      forall b: seq<byte> | |b| <= n ensures Fcf(b) == 0xFFFF - OnesSum(b) {
        LengthSuffices(b);
      }
    } else {
      OneByteMore();
    }
  }

  /** The example of section 3 of RFC 1071: the sum of 00 01, f2 03, f4 f5, f6 f7 is ddf2. */
  lemma Rfc1071Example()
    ensures var b: seq<byte> := [0x00, 0x01, 0xf2, 0x03, 0xf4, 0xf5, 0xf6, 0xf7];
            OnesSum(b) == 0xddf2 && Fcf(b) == 0x220d
  {
    var b: seq<byte> := [0x00, 0x01, 0xf2, 0x03, 0xf4, 0xf5, 0xf6, 0xf7];
    assert b[2..] == [0xf2, 0x03, 0xf4, 0xf5, 0xf6, 0xf7] && b[2..][2..] == [0xf4, 0xf5, 0xf6, 0xf7];
    assert b[2..][2..][2..] == [0xf6, 0xf7] && b[2..][2..][2..][2..] == [];
    assert OnesSum(b[2..][2..][2..]) == 0xf6f7 && OnesSum(b[2..][2..]) == 0xebed && OnesSum(b[2..]) == 0xddf1;
    LengthSuffices(b);
  }

  // ---------- ip_fcf_v ----------

  /** The bytes of a gather list in order. */
  function Gathered(vec: seq<seq<byte>>): seq<byte> {
    if vec == [] then [] else Gathered(vec[..|vec| - 1]) + vec[|vec| - 1]
  }

  /** Where the accumulator stands after the bytes b. */
  ghost predicate Summed(b: seq<byte>, acc32: nat, odd: bool) {
    acc32 == Wrap32(WordSum(b)) && (odd <==> |b| % 2 == 1)
  }

  lemma SumByte(b: seq<byte>, x: byte, acc32: nat, odd: bool)
    requires Summed(b, acc32, odd)
    ensures Summed(b + [x], Wrap32(acc32 + if odd then x else Word(x, 0)), !odd)
  {
    WordSumSnoc(b, x);
    WrapAdd(WordSum(b), if odd then x else Word(x, 0));
  }

  lemma SumWord(b: seq<byte>, x: byte, y: byte, acc32: nat)
    requires Summed(b, acc32, false)
    ensures Summed(b + [x, y], Wrap32(acc32 + Word(x, y)), false)
  {
    WordSumPair(b, x, y);
    WrapAdd(WordSum(b), Word(x, y));
  }

  lemma WordSumPair(b: seq<byte>, x: byte, y: byte)
    requires |b| % 2 == 0
    ensures WordSum(b + [x, y]) == WordSum(b) + Word(x, y) && |b + [x, y]| % 2 == 0
  {
    assert [x, y][2..] == [];
    WordSumConcat(b, [x, y]);
  }

  lemma WrapAdd(s: nat, d: nat)
    ensures Wrap32(Wrap32(s) + d) == Wrap32(s + d)
  {
    var q, t := s / 0x1_0000_0000, Wrap32(s) + d;
    var p := t / 0x1_0000_0000;
    assert s + d == 0x1_0000_0000 * (q + p) + Wrap32(t);
  }

  /** One element of the gather list: the odd byte left over before it, whole words, an odd byte at the end. */
  method AddFragment(data: seq<byte>, acc: nat, wasOdd: bool, ghost before: seq<byte>)
    returns (acc32: nat, odd: bool)
    requires Summed(before, acc, wasOdd)
    ensures Summed(before + data, acc32, odd)
  {
    acc32, odd := acc, wasOdd;
    var at, dataLength := 0, |data|;
    assert before + data[..0] == before;
    if odd && dataLength > 0 {
      SumByte(before, data[0], acc32, odd);
      assert before + data[..1] == before + [data[0]];
      acc32 := Wrap32(acc32 + data[at]);
      at, dataLength, odd := at + 1, dataLength - 1, false;
    }
    while dataLength >= 2
      invariant 0 <= at <= |data| && at + dataLength == |data|
      invariant Summed(before + data[..at], acc32, odd) && (dataLength > 0 ==> !odd)
    {
      SumWord(before + data[..at], data[at], data[at + 1], acc32);
      assert before + data[..at + 2] == before + data[..at] + [data[at], data[at + 1]];
      acc32 := Wrap32(acc32 + Word(data[at], data[at + 1]));
      at, dataLength := at + 2, dataLength - 2;
    }
    if dataLength != 0 {
      SumByte(before + data[..at], data[at], acc32, odd);
      assert before + data[..at + 1] == before + data[..at] + [data[at]];
      acc32 := Wrap32(acc32 + Word(data[at], 0));
      odd := true;
    }
    assert data[..|data|] == data;
  }

  /** ip_fcf_v: the result depends on the gathered bytes only, however they are split. */
  method IpFcfV(vec: seq<seq<byte>>) returns (fcf: uint16)
    ensures fcf == Fcf(Gathered(vec))
  {
    var acc32: nat, odd, i := 0, false, 0;
    while i < |vec|
      invariant 0 <= i <= |vec| && Summed(Gathered(vec[..i]), acc32, odd)
    {
      acc32, odd := AddFragment(vec[i], acc32, odd, Gathered(vec[..i]));
      assert vec[..i + 1][..i] == vec[..i];
      i := i + 1;
    }
    assert vec[..|vec|] == vec;
    fcf := FoldDown(acc32);
  }

  /** The two folds, the conversion to uint16_t and the complement. */
  method FoldDown(acc: nat) returns (fcf: uint16)
    requires acc < 0x1_0000_0000
    ensures fcf == 0xFFFF - Norm(acc)
  {
    TwoFolds(acc);
    var acc32 := Fold(acc);
    var sum16: uint16 := Fold(acc32) % 0x1_0000;
    fcf := 0xFFFF - sum16;
  }

  /** Splitting a fragment anywhere, odd places and the ends included, changes nothing. */
  lemma {:induction false} SplitFragment(before: seq<seq<byte>>, x: seq<byte>, y: seq<byte>, after: seq<seq<byte>>)
    ensures Gathered(before + [x + y] + after) == Gathered(before + [x, y] + after)
    decreases |after|
  {
    if after == [] {
      assert before + [x + y] + [] == before + [x + y] && (before + [x + y])[..|before|] == before;
      assert before + [x, y] + [] == before + [x] + [y] && (before + [x] + [y])[..|before| + 1] == before + [x];
      assert (before + [x])[..|before|] == before;
      assert Gathered(before + [x]) == Gathered(before) + x;
      assert Gathered(before + [x] + [y]) == Gathered(before) + x + y;
    } else {
      var n := |after| - 1;
      SplitFragment(before, x, y, after[..n]);
      GatheredSnoc(before + [x + y] + after[..n], after[n]);
      GatheredSnoc(before + [x, y] + after[..n], after[n]);
      assert before + [x + y] + after == before + [x + y] + after[..n] + [after[n]];
      assert before + [x, y] + after == before + [x, y] + after[..n] + [after[n]];
    }
  }

  lemma GatheredSnoc(vec: seq<seq<byte>>, x: seq<byte>)
    ensures Gathered(vec + [x]) == Gathered(vec) + x
  {
    assert (vec + [x])[..|vec|] == vec;
  }

  // ---------- ipv6_fcf ----------

  /** The 36 bytes that ipv6_fcf puts before the data. */
  function Header36(src: seq<byte>, dst: seq<byte>, length: uint16, next: byte): seq<byte> {
    src + dst + [length / 256, length % 256, 0, next]
  }

  /** The pseudo-header of section 8.1 of RFC 2460: 32-bit length, three zero bytes, next header. */
  function PseudoHeader(src: seq<byte>, dst: seq<byte>, length: uint16, next: byte): seq<byte> {
    src + dst + [0, 0, length / 256, length % 256] + [0, 0, 0, next]
  }

  /** The shorter header sums to the same. */
  lemma HeadersAgree(src: seq<byte>, dst: seq<byte>, length: uint16, next: byte, data: seq<byte>)
    requires |src| == 16 && |dst| == 16
    ensures WordSum(Header36(src, dst, length, next) + data) == WordSum(PseudoHeader(src, dst, length, next) + data)
    ensures OnesSum(Header36(src, dst, length, next) + data) == OnesSum(PseudoHeader(src, dst, length, next) + data)
  {
    var hi, lo := length / 256, length % 256;
    var short: seq<byte> := [hi, lo] + [0, next];
    var long: seq<byte> := [0, 0] + [hi, lo, 0, 0, 0, next];
    assert [hi, lo, 0, 0, 0, next] == [hi, lo] + [0, 0, 0, next] && [0, 0, 0, next] == [0, 0] + [0, next];
    PairSum(hi, lo, [0, next]);
    PairSum(0, 0, [hi, lo, 0, 0, 0, next]);
    PairSum(hi, lo, [0, 0, 0, next]);
    PairSum(0, 0, [0, next]);
    HeaderSum(src + dst, short, data);
    HeaderSum(src + dst, long, data);
    assert src + dst + short == Header36(src, dst, length, next);
    assert src + dst + long == PseudoHeader(src, dst, length, next);
    OnesSumIsNorm(Header36(src, dst, length, next) + data);
    OnesSumIsNorm(PseudoHeader(src, dst, length, next) + data);
  }

  /** What the pseudo-header adds: the words of both addresses, the length and the next header. */
  lemma PseudoHeaderSum(src: seq<byte>, dst: seq<byte>, length: uint16, next: byte, data: seq<byte>)
    requires |src| == 16 && |dst| == 16
    ensures |PseudoHeader(src, dst, length, next)| == 40
    ensures WordSum(PseudoHeader(src, dst, length, next) + data) ==
            WordSum(src) + WordSum(dst) + length + next + WordSum(data)
  {
    HeadersAgree(src, dst, length, next, data);
    var short: seq<byte> := [length / 256, length % 256] + [0, next];
    PairSum(length / 256, length % 256, [0, next]);
    PairSum(0, next, []);
    assert [0, next] + [] == [0, next] && Header36(src, dst, length, next) == src + dst + short;
    HeaderSum(src + dst, short, data);
    WordSumConcat(src, dst);
  }

  lemma PairSum(x: byte, y: byte, rest: seq<byte>)
    ensures WordSum([x, y] + rest) == Word(x, y) + WordSum(rest)
  {
    assert ([x, y] + rest)[2..] == rest;
  }

  lemma HeaderSum(addresses: seq<byte>, rest: seq<byte>, data: seq<byte>)
    requires |addresses| % 2 == 0 && |rest| % 2 == 0
    ensures WordSum(addresses + rest + data) == WordSum(addresses) + WordSum(rest) + WordSum(data)
  {
    WordSumConcat(addresses + rest, data);
    WordSumConcat(addresses, rest);
  }

  /**
    * ipv6_fcf: for any data that a uint16_t length admits, the complement of the one's-complement sum
    * over the pseudo-header of RFC 2460 and the data.
    */
  method Ipv6Fcf(src: seq<byte>, dst: seq<byte>, data: seq<byte>, next: byte) returns (fcf: uint16)
    requires |src| == 16 && |dst| == 16 && |data| <= 0xFFFF
    ensures fcf == 0xFFFF - OnesSum(PseudoHeader(src, dst, |data|, next) + data)
  {
    var hdrData: seq<byte> := [|data| / 256, |data| % 256, 0, next];
    var vec := [src, dst, hdrData, data];
    fcf := IpFcfV(vec);
    GatheredFour(src, dst, hdrData, data);
    LengthSuffices(Header36(src, dst, |data|, next) + data);
    HeadersAgree(src, dst, |data|, next, data);
  }

  lemma GatheredFour(a: seq<byte>, b: seq<byte>, c: seq<byte>, d: seq<byte>)
    ensures Gathered([a, b, c, d]) == a + b + c + d
  {
    assert [a, b, c, d][..3] == [a, b, c] && [a, b, c][..2] == [a, b] && [a, b][..1] == [a] && [a][..0] == [];
    assert Gathered([]) == [] && Gathered([a]) == a && Gathered([a, b]) == a + b && Gathered([a, b, c]) == a + b + c;
  }

  // ---------- sending and checking ----------

  /** The bytes with the word v stored at offset k. */
  function Stored(b: seq<byte>, k: nat, v: uint16): (s: seq<byte>)
    requires k + 2 <= |b|
    ensures |s| == |b|
  {
    b[k := v / 256][k + 1 := v % 256]
  }

  lemma {:induction false} StoredSum(b: seq<byte>, k: nat, v: uint16)
    requires k + 2 <= |b| && k % 2 == 0 && b[k] == 0 && b[k + 1] == 0
    ensures WordSum(Stored(b, k, v)) == WordSum(b) + v
    decreases k
  {
    if k == 0 {
      assert Stored(b, 0, v)[2..] == b[2..];
    } else {
      assert Stored(b, k, v)[2..] == Stored(b[2..], k - 2, v);
      StoredSum(b[2..], k - 2, v);
    }
  }

  /** A word added to a sum completes it to the all-ones sum exactly when it is the complement; the two
      zeros of one's-complement arithmetic stand for each other in one direction. */
  lemma Completes(s: nat, v: uint16)
    ensures Norm(s + v) == 0xFFFF <==> v == 0xFFFF - Norm(s) || (Norm(s) == 0xFFFF && v == 0xFFFF)
  {
    if s > 0 {
      var k := (s - 1) / 0xFFFF;
      assert s == Norm(s) + 0xFFFF * k;
      NormShift(Norm(s) + v, k);
    }
    NormSmall(Norm(s) + v);
  }

  /**
    * A receiver's sum completes to 0 exactly for the checksum that the sender computed over a zero
    * field, or for 0xFFFF where that was 0x0000. The field may be anywhere at an even offset.
    */
  lemma CheckAccepts(b: seq<byte>, k: nat, v: uint16)
    requires k + 2 <= |b| && k % 2 == 0 && b[k] == 0 && b[k + 1] == 0
    ensures OnesSum(Stored(b, k, v)) == 0xFFFF <==>
              v == 0xFFFF - OnesSum(b) || (OnesSum(b) == 0xFFFF && v == 0xFFFF)
  {
    StoredSum(b, k, v);
    CompletesSum(b, Stored(b, k, v), v);
  }

  lemma CompletesSum(b: seq<byte>, c: seq<byte>, v: uint16)
    requires WordSum(c) == WordSum(b) + v
    ensures OnesSum(c) == 0xFFFF <==> v == 0xFFFF - OnesSum(b) || (OnesSum(b) == 0xFFFF && v == 0xFFFF)
  {
    OnesSumIsNorm(b);
    OnesSumIsNorm(c);
    Completes(WordSum(b), v);
  }

  /**
    * The same for ipv6_fcf on a datagram with its checksum field at an even offset of the data: the
    * check returns 0 for the checksum sent, also for 0xFFFF sent in place of 0x0000, and for no other.
    */
  lemma DatagramCheck(src: seq<byte>, dst: seq<byte>, data: seq<byte>, next: byte, k: nat, v: uint16)
    requires |src| == 16 && |dst| == 16 && |data| <= 0xFFFF
    requires k + 2 <= |data| && k % 2 == 0 && data[k] == 0 && data[k + 1] == 0
    ensures var head := PseudoHeader(src, dst, |data|, next);
            var sent: int := 0xFFFF - OnesSum(head + data);
            0xFFFF - OnesSum(head + Stored(data, k, v)) == 0 <==> v == sent || (sent == 0 && v == 0xFFFF)
  {
    CheckBehind(PseudoHeader(src, dst, |data|, next), data, k, v);
  }

  lemma CheckBehind(head: seq<byte>, data: seq<byte>, k: nat, v: uint16)
    requires |head| % 2 == 0 && k + 2 <= |data| && k % 2 == 0 && data[k] == 0 && data[k + 1] == 0
    ensures OnesSum(head + Stored(data, k, v)) == 0xFFFF <==>
              v == 0xFFFF - OnesSum(head + data) || (OnesSum(head + data) == 0xFFFF && v == 0xFFFF)
  {
    WordSumBehind(head, data, k, v);
    CompletesSum(head + data, head + Stored(data, k, v), v);
  }

  lemma WordSumBehind(head: seq<byte>, data: seq<byte>, k: nat, v: uint16)
    requires |head| % 2 == 0 && k + 2 <= |data| && k % 2 == 0 && data[k] == 0 && data[k + 1] == 0
    ensures WordSum(head + Stored(data, k, v)) == WordSum(head + data) + v
  {
    WordSumConcat(head, data);
    WordSumConcat(head, Stored(data, k, v));
    StoredSum(data, k, v);
  }
}
