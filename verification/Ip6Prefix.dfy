/** ip6_prefix_tos and stoip6_prefix: address prefixes such as "2001:db8::/32". */
module Ip6Prefix {
  import opened Bits
  import opened Ip6Text
  import opened Ip6Grammar
  import opened Ip6Print
  import opened Ip6Parse
  import opened Options

  // ---------- the address behind a prefix ----------

  /** The first `len` bits of the prefix, and zeros up to sixteen bytes. */
  function PrefixAddress(prefix: seq<bv8>, len: nat): (addr: seq<bv8>)
    requires len <= 128 && len <= 8 * |prefix|
    ensures |addr| == 16
  {
    seq(16, i requires 0 <= i < 16 =>
      if 8 * i + 8 <= len then prefix[i]
      else if len <= 8 * i then 0
      else prefix[i] & ContextSplitMask(len - 8 * i))
  }

  lemma ZeroBit(k: nat)
    requires k < 8
    ensures !Bit(0, k)
  {
  }

  lemma PrefixAddressBit(prefix: seq<bv8>, len: nat, j: nat)
    requires len <= 128 && len <= 8 * |prefix| && j < 128
    ensures BitTest(PrefixAddress(prefix, len), j) <==> j < len && BitTest(prefix, j)
  {
    var i, k := j / 8, j % 8;
    if 8 * i + 8 <= len {
    } else if len <= 8 * i {
      ZeroBit(k);
    } else {
      MaskedBit(prefix[i], len - 8 * i, k);
    }
  }

  /** It agrees with the prefix on the prefix bits and is zero beyond them. */
  lemma PrefixAddressIsPrefix(prefix: seq<bv8>, len: nat)
    requires len <= 128 && len <= 8 * |prefix|
    ensures Bitsequal(PrefixAddress(prefix, len), prefix, len)
    ensures forall j: nat :: len <= j < 128 ==> !BitTest(PrefixAddress(prefix, len), j)
  {
    var addr := PrefixAddress(prefix, len);
    forall j: nat | j < 128 ensures BitTest(addr, j) <==> j < len && BitTest(prefix, j) {
      PrefixAddressBit(prefix, len, j);
    }
    BitsequalComparesBits(addr, prefix, len);
  }

  /** Bytes that copy the prefix bits over zeros are that address. */
  lemma CopiedPrefix(addr: seq<bv8>, prefix: seq<bv8>, len: nat)
    requires |addr| == 16 && len <= 128 && len <= 8 * |prefix|
    requires forall j: nat :: j < 128 ==> (BitTest(addr, j) <==> j < len && BitTest(prefix, j))
    ensures addr == PrefixAddress(prefix, len)
  {
    forall j: nat | j < 128 ensures BitTest(addr, j) == BitTest(PrefixAddress(prefix, len), j) {
      PrefixAddressBit(prefix, len, j);
    }
    BytesFromBits(addr, PrefixAddress(prefix, len));
  }

  // ---------- decimal numbers ----------

  /** `%u` */
  function DecText(n: nat): (s: string)
    ensures s != [] && forall i :: 0 <= i < |s| ==> IsDigit(s[i])
  {
    if n < 10 then [HexChar(n)] else DecText(n / 10) + [HexChar(n % 10)]
  }

  predicate IsSpace(c: char) { c == ' ' || 9 as char <= c <= 13 as char }

  function SkipSpace(s: string): string {
    if s != "" && IsSpace(s[0]) then SkipSpace(s[1..]) else s
  }

  /** The number at the start of s, after digits worth `acc`. */
  function Decimal(s: string, acc: nat): nat {
    if s != "" && IsDigit(s[0]) then Decimal(s[1..], 10 * acc + DigitValue(s[0])) else acc
  }

  /** strtoul(s, 0, 10) read back as a signed number: spaces, a sign, then digits; zero without any. */
  function Strtoul(s: string): int {
    var t := SkipSpace(s);
    if t != "" && t[0] == '-' then -(Decimal(t[1..], 0) as int)
    else if t != "" && t[0] == '+' then Decimal(t[1..], 0)
    else Decimal(t, 0)
  }

  lemma DecimalDigit(d: nat, s: string, acc: nat)
    requires d < 10
    ensures Decimal([HexChar(d)] + s, acc) == Decimal(s, 10 * acc + d) && !IsSpace(HexChar(d))
    ensures HexChar(d) != '-' && HexChar(d) != '+'
  {
    assert ([HexChar(d)] + s)[1..] == s;
  }

  /** A one- or two-digit decimal number is read back; three digits start at 100. */
  lemma DecTextReadsBack(n: nat)
    requires n < 1000
    ensures |DecText(n)| == if n < 10 then 1 else if n < 100 then 2 else 3
    ensures n < 100 ==> Strtoul(DecText(n)) == n
  {
    if n < 10 {
      DecimalDigit(n, "", 0);
      assert DecText(n) == [HexChar(n)] + "";
    } else if n < 100 {
      var a, b := n / 10, n % 10;
      DecimalDigit(a, [HexChar(b)], 0);
      DecimalDigit(b, "", a);
      assert DecText(a) == [HexChar(a)] && [HexChar(b)] + "" == [HexChar(b)];
      assert DecText(n) == [HexChar(a)] + [HexChar(b)];
    } else {
      assert DecText(n / 10) == DecText(n / 100) + [HexChar(n / 10 % 10)];
    }
  }

  // ---------- ip6_prefix_tos ----------

  /** The canonical text of the prefix's address, a slash and the length. */
  function PrefixText(prefix: seq<bv8>, len: nat): string
    requires len <= 128 && len <= 8 * |prefix|
  {
    Print(FieldsOf(PrefixAddress(prefix, len))) + "/" + DecText(len)
  }

  /**
    * ip6_prefix_tos: a length over 128 gives 0 and writes nothing; otherwise the prefix text and a
    * NUL are written at p, within 44 characters.
    */
  method Ip6PrefixTos(prefix: seq<bv8>, prefixLen: nat, out: array<char>, p: nat) returns (length: nat)
    requires prefixLen <= 128 ==> prefixLen <= 8 * |prefix|
    requires p + 44 <= out.Length
    modifies out
    ensures prefixLen > 128 ==> length == 0 && out[..] == old(out[..])
    ensures prefixLen <= 128 ==>
              length == |PrefixText(prefix, prefixLen)| <= 43 && out[p + length] == NUL &&
              Wrote(out[..], old(out[..]), p, PrefixText(prefix, prefixLen))
  {
    if prefixLen > 128 {
      return 0;
    }
    ghost var was := out[..];
    var addr := PrefixBytes(prefix, prefixLen);
    var n := Ip6tos(addr, out, p);
    DecTextReadsBack(prefixLen);
    ghost var text := Print(FieldsOf(addr));
    Regroup3(text, "/", DecText(prefixLen));
    var w := Sprintf(out, p + n, "/" + DecText(prefixLen), was, p, text);
    length := w - p;
  }

  /** uint8_t addr[16] = {0}; bitcopy(addr, prefix, prefix_len) */
  method PrefixBytes(prefix: seq<bv8>, prefixLen: nat) returns (bytes: seq<bv8>)
    requires prefixLen <= 128 && prefixLen <= 8 * |prefix|
    ensures bytes == PrefixAddress(prefix, prefixLen)
  {
    var addr := new bv8[16](_ => 0);
    ghost var zeros := addr[..];
    var _ := Bitcopy(addr, prefix, prefixLen);
    bytes := addr[..];
    forall j: nat | j < 128 ensures BitTest(bytes, j) <==> j < prefixLen && BitTest(prefix, j) {
      assert zeros[j / 8] == 0;
      ZeroBit(j % 8);
    }
    CopiedPrefix(bytes, prefix, prefixLen);
  }

  // ---------- stoip6_prefix ----------

  /** strchr(s, '/') as an index, or the end of the string. */
  function Slash(s: string): (k: nat)
    ensures k <= |s| && (forall i :: 0 <= i < k ==> s[i] != '/') && (k < |s| ==> s[k] == '/')
  {
    if s == "" || s[0] == '/' then 0 else 1 + Slash(s[1..])
  }

  /** The length part is refused: more than two characters, or a number outside 0 .. 128. */
  predicate LengthRefused(digits: string) {
    |digits| + 1 > 3 || !(0 <= Strtoul(digits) <= 128)
  }

  /** What stoip6_prefix makes of a string when the length is asked for: the address and the prefix
      length, which is -1 if there is no slash. */
  function ReadPrefix(s: string): Option<(seq<uint16>, int)> {
    var k := Slash(s);
    if k < |s| && LengthRefused(s[k + 1..]) then None
    else match Parse(s[..k])
      case None => None
      case Some(f) => Some((f, if k < |s| then Strtoul(s[k + 1..]) else -1))
  }

  /**
    * stoip6_prefix on the NUL-terminated string s. A refused length leaves the destination alone; a
    * bad address clears it, with the length already stored. `wantLength` is whether a place for the
    * length was given; without one the length part is not looked at.
    */
  method Stoip6Prefix(s: string, dest: array<bv8>, wantLength: bool) returns (ret: int, prefixLen: int)
    requires 16 <= dest.Length && forall i :: 0 <= i < |s| ==> s[i] != NUL
    modifies dest
    ensures dest[16..] == old(dest[16..])
    ensures var k := Slash(s);
            if wantLength && k < |s| && LengthRefused(s[k + 1..])
            then ret == -1 && prefixLen == -1 && dest[..] == old(dest[..])
            else (wantLength ==> prefixLen == if k < |s| then Strtoul(s[k + 1..]) else -1) &&
                 match Parse(s[..k])
                 case Some(f) => ret == 0 && dest[..16] == BytesOf(f)
                 case None => ret == -1 && dest[..16] == ZeroBytes(16)
    ensures wantLength ==> match ReadPrefix(s)
                           case Some((f, n)) => ret == 0 && dest[..16] == BytesOf(f) && prefixLen == n
                           case None => ret == -1
  {
    prefixLen := -1;
    var totalLen := |s|;
    var addrLen := Slash(s);
    if addrLen < |s| && wantLength {
      if totalLen - addrLen > 3 {
        return -1, prefixLen;
      }
      var prefixLength := Strtoul(s[addrLen + 1..]);
      if prefixLength < 0 || prefixLength > 128 {
        return -1, prefixLen;
      }
      prefixLen := prefixLength;
    }
    var text := s + [NUL];
    assert text[..addrLen] == s[..addrLen];
    var ok := Stoip6(text, addrLen, dest);
    ret := if ok then 0 else -1;
  }

  /** The digit c as a number. */
  function Digit(c: char): int { c as int - '0' as int }

  /** What the length part of at most two characters is read as: one or two digits, or one digit behind a space or
      a sign; anything else counts as zero. */
  lemma LengthPart(d: string)
    requires |d| <= 2
    ensures Strtoul(d) ==
            if d != "" && '0' <= d[0] <= '9' then
              if |d| == 2 && '0' <= d[1] <= '9' then 10 * Digit(d[0]) + Digit(d[1]) else Digit(d[0])
            else if |d| == 2 && '0' <= d[1] <= '9' then
              if d[0] == '-' then -Digit(d[1])
              else if d[0] == '+' || d[0] == ' ' || 9 <= d[0] as int <= 13 then Digit(d[1])
              else 0
            else 0
  {
    if |d| == 2 {
      var e := d[1..];
      assert e == [d[1]];
      SpaceOne(e);
      DecimalOne(e, 0);
      if IsDigit(d[0]) {
        DecimalOne(e, Digit(d[0]));
        assert Decimal(d, 0) == Decimal(e, Digit(d[0]));
      }
    } else if |d| == 1 {
      SpaceOne(d);
      DecimalOne(d, 0);
      assert d[1..] == "";
    }
  }

  lemma SpaceOne(e: string)
    requires |e| == 1
    ensures SkipSpace(e) == if IsSpace(e[0]) then "" else e
  {
    assert e[1..] == "";
  }

  lemma DecimalOne(e: string, acc: nat)
    requires |e| == 1
    ensures Decimal(e, acc) == if '0' <= e[0] <= '9' then 10 * acc + Digit(e[0]) else acc
  {
    assert e[1..] == "";
  }

  /** A length part is refused exactly if it has three characters or more, or is a negative digit. */
  lemma LengthRefusedIff(d: string)
    ensures LengthRefused(d) <==> |d| >= 3 || (|d| == 2 && d[0] == '-' && '1' <= d[1] <= '9')
  {
    if |d| <= 2 {
      LengthPart(d);
    }
  }

  // ---------- round trip ----------

  lemma SlashAfter(t: string, d: string)
    requires forall i :: 0 <= i < |t| ==> t[i] != '/'
    ensures Slash(t + "/" + d) == |t|
  {
    var s := t + "/" + d;
    assert s[|t|] == '/';
    assert forall i :: 0 <= i < |t| ==> s[i] == t[i];
  }

  /**
    * Every printed prefix of length 0 to 99 is read back, with the same length; every printed prefix of
    * length 100 to 128 is refused, because three digits and the slash exceed the limit of three.
    */
  lemma PrefixRoundTrip(prefix: seq<bv8>, len: nat)
    requires len <= 128 && len <= 8 * |prefix|
    ensures ReadPrefix(PrefixText(prefix, len)) ==
            if len <= 99 then Some((FieldsOf(PrefixAddress(prefix, len)), len)) else None
  {
    var f := FieldsOf(PrefixAddress(prefix, len));
    var t, d := Print(f), DecText(len);
    PrintCanonical(f);
    PrintParse(f);
    DecTextReadsBack(len);
    SlashAfter(t, d);
    var s := t + "/" + d;
    assert s[..|t|] == t && s[|t| + 1..] == d;
  }

  lemma DecimalSmall(s: string)
    requires |s| <= 2
    ensures Decimal(s, 0) <= 99
  {
    if s != "" && IsDigit(s[0]) {
      var t, d := s[1..], DigitValue(s[0]);
      assert d <= 9 && Decimal(s, 0) == Decimal(t, d);
      if t != "" && IsDigit(t[0]) {
        assert t[1..] == "" && DigitValue(t[0]) <= 9;
        assert Decimal(t, d) == Decimal("", 10 * d + DigitValue(t[0]));
      }
    }
  }

  lemma {:induction false} SkipSpaceShortens(s: string)
    ensures |SkipSpace(s)| <= |s|
  {
    if s != "" && IsSpace(s[0]) {
      SkipSpaceShortens(s[1..]);
    }
  }

  /** No text whatever yields a length of 100 or more, although lengths up to 128 are meant to be legal. */
  lemma AcceptedLengths(s: string)
    requires ReadPrefix(s).Some?
    ensures -1 <= ReadPrefix(s).value.1 <= 99
  {
    var k := Slash(s);
    if k < |s| {
      var t := SkipSpace(s[k + 1..]);
      SkipSpaceShortens(s[k + 1..]);
      DecimalSmall(t);
      if t != "" {
        DecimalSmall(t[1..]);
      }
    }
  }
}
