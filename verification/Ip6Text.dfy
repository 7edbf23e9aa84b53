/** Hexadecimal fields of IPv6 text: the character classes of stoip6.c, %x, and the big-endian
    bytes behind each 16-bit field. Characters are taken by their ASCII codes. */
module Ip6Text {
  import Bits

  type uint16 = v: int | 0 <= v < 0x1_0000

  const NUL := '\0'

  // ---------- bytes and fields ----------

  function Hi(v: uint16): bv8 { (v / 256) as bv8 }

  function Lo(v: uint16): bv8 { (v % 256) as bv8 }

  function Join16(hi: bv8, lo: bv8): uint16 { 256 * (hi as int) + (lo as int) }

  /** The fields of an even number of bytes in network order. */
  function FieldsOf(bytes: seq<bv8>): (fs: seq<uint16>)
    requires |bytes| % 2 == 0
  {
    seq(|bytes| / 2, i requires 0 <= i < |bytes| / 2 => Join16(bytes[2 * i], bytes[2 * i + 1]))
  }

  /** Byte k of fields in network order. */
  function ByteAt(fs: seq<uint16>, k: nat): bv8
    requires k < 2 * |fs|
  {
    if k % 2 == 0 then Hi(fs[k / 2]) else Lo(fs[k / 2])
  }

  /** Fields written one after another by common_write_16_bit. */
  function BytesOf(fs: seq<uint16>): (bytes: seq<bv8>)
    ensures |bytes| == 2 * |fs|
  {
    seq(2 * |fs|, k requires 0 <= k < 2 * |fs| => ByteAt(fs, k))
  }

  lemma JoinSplit(v: uint16)
    ensures Join16(Hi(v), Lo(v)) == v
  {
    Bits.ByteBack(v / 256);
    Bits.ByteBack(v % 256);
  }

  lemma SplitJoin(hi: bv8, lo: bv8)
    ensures Hi(Join16(hi, lo)) == hi && Lo(Join16(hi, lo)) == lo
  {
    DivMod256(hi as int, lo as int);
    Bits.IntBack(hi);
    Bits.IntBack(lo);
    assert Join16(hi, lo) / 256 == hi as int;
    assert Join16(hi, lo) % 256 == lo as int;
  }

  lemma DivMod256(h: nat, l: nat)
    requires h < 256 && l < 256
    ensures (256 * h + l) / 256 == h && (256 * h + l) % 256 == l
  {
  }

  /** Bytes and fields determine each other. */
  lemma FieldsOfBytesOf(fs: seq<uint16>)
    ensures FieldsOf(BytesOf(fs)) == fs
  {
    forall i | 0 <= i < |fs| ensures FieldsOf(BytesOf(fs))[i] == fs[i] {
      BytesOfAt(fs, i);
      JoinSplit(fs[i]);
    }
  }

  lemma BytesOfAt(fs: seq<uint16>, i: nat)
    requires i < |fs|
    ensures BytesOf(fs)[2 * i] == Hi(fs[i]) && BytesOf(fs)[2 * i + 1] == Lo(fs[i])
  {
    assert (2 * i + 1) / 2 == i && (2 * i + 1) % 2 == 1;
  }

  /** Network order: the high byte of a field comes first. */
  lemma NetworkOrder(fs: seq<uint16>, i: nat)
    requires i < |fs|
    ensures 256 * (BytesOf(fs)[2 * i] as int) + (BytesOf(fs)[2 * i + 1] as int) == fs[i]
  {
    BytesOfAt(fs, i);
    Bits.ByteBack(fs[i] / 256);
    Bits.ByteBack(fs[i] % 256);
  }

  lemma BytesOfFieldsOf(bytes: seq<bv8>)
    requires |bytes| % 2 == 0
    ensures BytesOf(FieldsOf(bytes)) == bytes
  {
    forall i | 0 <= i < |bytes| ensures BytesOf(FieldsOf(bytes))[i] == bytes[i] {
      var k := i / 2;
      SplitJoin(bytes[2 * k], bytes[2 * k + 1]);
      assert FieldsOf(bytes)[k] == Join16(bytes[2 * k], bytes[2 * k + 1]);
    }
  }

  // ---------- hexadecimal digits ----------

  predicate IsDigit(c: char) { '0' <= c <= '9' }

  /** A hexadecimal digit of either case. */
  predicate HexDigit(c: char) { IsDigit(c) || 'A' <= c <= 'F' || 'a' <= c <= 'f' }

  /** c & ~0x20 */
  function ClearBit5(code: nat): nat {
    if code / 32 % 2 == 1 then code - 32 else code
  }

  /** is_hex: the 0x20 bit is masked away so that one range covers both cases. */
  predicate IsHex(c: char)
  {
    ('A' as int <= ClearBit5(c as int) <= 'F' as int) || '0' <= c <= '9'
  }

  /** The masked range test accepts hexadecimal digits of either case and nothing else. */
  lemma IsHexIsHexDigit(c: char)
    ensures IsHex(c) <==> HexDigit(c)
  {
    var code := c as int;
    assert code / 32 % 2 == 1 ==> (0x41 <= code - 32 <= 0x46 <==> 'a' <= c <= 'f') && !('A' <= c <= 'F');
    assert code / 32 % 2 != 1 ==> (0x41 <= code <= 0x46 <==> 'A' <= c <= 'F') && !('a' <= c <= 'f');
  }

  function DigitValue(c: char): (d: nat)
    requires HexDigit(c)
    ensures d < 16
  {
    if IsDigit(c) then c as int - '0' as int
    else if 'A' <= c <= 'F' then 10 + (c as int - 'A' as int)
    else 10 + (c as int - 'a' as int)
  }

  /** The digits in the order of their values. */
  const DIGITS := "0123456789abcdef"

  /** tolower */
  function LowerChar(c: char): char {
    if 'A' <= c <= 'Z' then c + 32 as char else c
  }

  function Lower(s: string): (t: string)
    ensures |t| == |s|
  {
    seq(|s|, i requires 0 <= i < |s| => LowerChar(s[i]))
  }

  /** A digit of either case is worth its place among the sixteen. */
  lemma DigitWorth(c: char)
    requires HexDigit(c)
    ensures DIGITS[DigitValue(c)] == LowerChar(c)
  {
    assert DIGITS[0] == '0' && DIGITS[1] == '1' && DIGITS[2] == '2' && DIGITS[3] == '3' && DIGITS[4] == '4' &&
           DIGITS[5] == '5' && DIGITS[6] == '6' && DIGITS[7] == '7' && DIGITS[8] == '8' && DIGITS[9] == '9' &&
           DIGITS[10] == 'a' && DIGITS[11] == 'b' && DIGITS[12] == 'c' && DIGITS[13] == 'd' && DIGITS[14] == 'e' &&
           DIGITS[15] == 'f';
  }

  /** Case changes neither the class nor the value of a digit. */
  lemma LowerDigit(c: char)
    ensures HexDigit(LowerChar(c)) <==> HexDigit(c)
    ensures HexDigit(c) ==> DigitValue(LowerChar(c)) == DigitValue(c)
    ensures LowerChar(c) == ':' <==> c == ':'
  {
  }

  predicate AllHex(s: string) { forall i :: 0 <= i < |s| ==> HexDigit(s[i]) }

  /** The number a string of hexadecimal digits stands for. */
  function HexValue(s: string): (v: nat)
    requires AllHex(s)
  {
    if s == [] then 0 else 16 * HexValue(s[..|s| - 1]) + DigitValue(s[|s| - 1])
  }

  lemma HexValueBound(s: string)
    requires AllHex(s) && |s| <= 4
    ensures HexValue(s) < 0x1_0000
  {
    if |s| == 4 {
      HexValueSmall(s[..3]);
    } else {
      HexValueSmall(s);
    }
  }

  lemma {:induction false} HexValueSmall(s: string)
    requires AllHex(s) && |s| <= 3
    ensures HexValue(s) < if |s| == 0 then 1 else if |s| == 1 then 16 else if |s| == 2 then 256 else 4096
  {
    if s != [] {
      HexValueSmall(s[..|s| - 1]);
    }
  }

  /** The value of a field of at most four digits; an empty field is zero. */
  function FieldValue(s: string): (v: uint16)
    requires AllHex(s) && |s| <= 4
  {
    HexValueBound(s);
    HexValue(s)
  }

  /** What `%x` writes for one nibble. */
  function HexChar(d: nat): (c: char)
    requires d < 16
    ensures HexDigit(c) && DigitValue(c) == d
    ensures d == 0 <==> c == '0'
    ensures !('A' <= c <= 'F')
  {
    if d < 10 then '0' + d as char else 'a' + (d - 10) as char
  }

  /** `%x` */
  function HexText(v: nat): (s: string)
    ensures s != [] && AllHex(s)
  {
    if v < 16 then [HexChar(v)] else HexText(v / 16) + [HexChar(v % 16)]
  }

  /** `%x` of a field: at most four digits, lower case, no leading zero, and read back as the field. */
  lemma {:induction false} HexTextCanonical(v: nat)
    ensures HexValue(HexText(v)) == v
    ensures forall i :: 0 <= i < |HexText(v)| ==> !('A' <= HexText(v)[i] <= 'F')
    ensures HexText(v)[0] == '0' ==> v == 0
    ensures v < 0x1_0000 ==> |HexText(v)| <= 4
    ensures v < 0x1000 ==> |HexText(v)| <= 3
    ensures v < 0x100 ==> |HexText(v)| <= 2
    ensures v < 0x10 ==> |HexText(v)| == 1
  {
    if v < 16 {
      assert [HexChar(v)][..0] == [];
    } else {
      HexTextCanonical(v / 16);
      assert HexText(v)[..|HexText(v)| - 1] == HexText(v / 16);
    }
  }

  lemma {:induction false} LowerValue(s: string)
    ensures AllHex(Lower(s)) <==> AllHex(s)
    ensures AllHex(s) ==> HexValue(Lower(s)) == HexValue(s)
  {
    forall i | 0 <= i < |s|
      ensures HexDigit(Lower(s)[i]) <==> HexDigit(s[i])
    {
      LowerDigit(s[i]);
    }
    assert AllHex(s) ==> forall i :: 0 <= i < |s| ==> HexDigit(Lower(s)[i]);
    assert AllHex(Lower(s)) ==> forall i :: 0 <= i < |s| ==> HexDigit(s[i]);
    if s != [] && AllHex(s) {
      var n := |s| - 1;
      LowerValue(s[..n]);
      LowerDigit(s[n]);
      assert Lower(s)[..n] == Lower(s[..n]);
    }
  }

  // ---------- runs between colons ----------

  /** The number of characters before the first colon, or all of them. */
  function Run(t: string): (n: nat)
    ensures n <= |t|
    ensures forall i :: 0 <= i < n ==> t[i] != ':'
    ensures n < |t| ==> t[n] == ':'
  {
    if t == [] || t[0] == ':' then 0 else 1 + Run(t[1..])
  }

  lemma {:induction false} RunIs(t: string, n: nat)
    requires n <= |t| && (forall i :: 0 <= i < n ==> t[i] != ':') && (n < |t| ==> t[n] == ':')
    ensures Run(t) == n
  {
  }
}
