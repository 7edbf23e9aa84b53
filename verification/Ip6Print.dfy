/** ip6tos: the longest zero run, the canonical text of RFC 5952, and reading it back with stoip6. */
module Ip6Print {
  import opened Ip6Text
  import opened Ip6Grammar
  import opened Ip6Forms
  import opened Options

  // ---------- the zero run ----------

  /** Fields i .. i + n - 1 are a run of zeros. */
  predicate ZeroRun(f: seq<uint16>, i: nat, n: nat) {
    0 < n && i + n <= |f| && forall k :: i <= k < i + n ==> f[k] == 0
  }

  /**
    * The run to be shortened, by sections 4.2.2 and 4.2.3 of RFC 5952: the leftmost of the longest
    * runs of at least two zero fields; start 255 and length 1 stand for "none".
    */
  ghost predicate Chosen(f: seq<uint16>, start: nat, len: nat) {
    if start == 255 then len == 1 && forall i: nat, n: nat :: ZeroRun(f, i, n) ==> n < 2
    else 2 <= len && ZeroRun(f, start, len) &&
         forall i: nat, n: nat :: ZeroRun(f, i, n) ==> n < len || (n == len && start <= i)
  }

  lemma ChosenIsUnique(f: seq<uint16>, i: nat, m: nat, j: nat, n: nat)
    requires Chosen(f, i, m) && Chosen(f, j, n) && |f| < 255
    ensures i == j && m == n
  {
    if i != 255 {
      assert ZeroRun(f, i, m);
    }
    if j != 255 {
      assert ZeroRun(f, j, n);
    }
  }

  /** The first field from n on that is not zero, or the end. */
  function RunEnd(f: seq<uint16>, n: nat): (e: nat)
    requires n <= |f|
    ensures n <= e <= |f| && (forall k :: n <= k < e ==> f[k] == 0) && (e < |f| ==> f[e] != 0)
    decreases |f| - n
  {
    if n == |f| || f[n] != 0 then n else RunEnd(f, n + 1)
  }

  /** The pre-scan from field n, with the best run so far. */
  function LongestFrom(f: seq<uint16>, n: nat, start: nat, len: nat): (nat, nat)
    decreases |f| - n
  {
    if n >= |f| then (start, len)
    else if f[n] != 0 then LongestFrom(f, n + 1, start, len)
    else
      var e := RunEnd(f, n + 1);
      if e - n > len then LongestFrom(f, e + 1, n, e - n) else LongestFrom(f, e + 1, start, len)
  }

  /** Chosen, as far as runs that start before field n are concerned. */
  ghost predicate ChosenBefore(f: seq<uint16>, n: nat, start: nat, len: nat) {
    if start == 255 then len == 1 && forall i: nat, m: nat :: ZeroRun(f, i, m) && i < n ==> m < 2
    else start < n && 2 <= len && ZeroRun(f, start, len) &&
         forall i: nat, m: nat :: ZeroRun(f, i, m) && i < n ==> m < len || (m == len && start <= i)
  }

  lemma RunWithin(f: seq<uint16>, i: nat, m: nat, e: nat)
    requires ZeroRun(f, i, m) && i <= e && (e < |f| ==> f[e] != 0)
    ensures i + m <= e || |f| <= e
    ensures i < e
  {
    if e < |f| && e < i + m {
      assert false;
    }
  }

  lemma {:induction false} LongestIsChosen(f: seq<uint16>, n: nat, start: nat, len: nat)
    requires |f| < 255 && ChosenBefore(f, n, start, len)
    ensures var (s, l) := LongestFrom(f, n, start, len); Chosen(f, s, l)
    decreases |f| - n
  {
    if n >= |f| {
    } else if f[n] != 0 {
      forall i: nat, m: nat | ZeroRun(f, i, m) && i < n + 1 ensures i < n {
      }
      LongestIsChosen(f, n + 1, start, len);
    } else {
      var e := RunEnd(f, n + 1);
      forall i: nat, m: nat | ZeroRun(f, i, m) && i < e + 1 ensures i < n || (n <= i && i + m <= e) {
        RunWithin(f, i, m, e);
      }
      if e - n > len {
        assert ZeroRun(f, n, e - n);
        LongestIsChosen(f, e + 1, n, e - n);
      } else {
        LongestIsChosen(f, e + 1, start, len);
      }
    }
  }

  // ---------- the text ----------

  /** Fields in hexadecimal with colons between them. */
  function Join(fs: seq<uint16>): string {
    if fs == [] then "" else if |fs| == 1 then HexText(fs[0]) else HexText(fs[0]) + ":" + Join(fs[1..])
  }

  /** The text with the given run shortened to "::" (255 for none). */
  function Compressed(f: seq<uint16>, start: nat, len: nat): string
    requires start == 255 || start + len <= |f|
  {
    if start == 255 then Join(f) else Join(f[..start]) + "::" + Join(f[start + len..])
  }

  /** The canonical text of an address. */
  function Print(f: seq<uint16>): string
    requires |f| == 8
  {
    LongestIsChosen(f, 0, 255, 1);
    var (start, len) := LongestFrom(f, 0, 255, 1);
    Compressed(f, start, len)
  }

  // ---------- the printed text is of one of the forms ----------

  function Texts(fs: seq<uint16>): (ds: seq<string>)
    ensures |ds| == |fs|
  {
    seq(|fs|, i requires 0 <= i < |fs| => HexText(fs[i]))
  }

  lemma {:induction false} JoinIsGroups(fs: seq<uint16>)
    ensures Groups(Texts(fs)) && GroupValues(Texts(fs)) == fs && Join(fs) == JoinGroups(Texts(fs))
  {
    forall i | 0 <= i < |fs|
      ensures Group(Texts(fs)[i]) && FieldValue(Texts(fs)[i]) == fs[i]
    {
      HexTextCanonical(fs[i]);
    }
    if |fs| > 1 {
      JoinIsGroups(fs[1..]);
      assert Texts(fs)[1..] == Texts(fs[1..]);
    }
  }

  /** Whatever zero run is shortened, the text is of one of the forms and stands for the address. */
  lemma CompressedForm(f: seq<uint16>, start: nat, len: nat) returns (form: Form)
    requires |f| == 8 && (start == 255 || ZeroRun(f, start, len))
    ensures FormOk(form) && FormText(form) == Compressed(f, start, len) && FormValue(form) == f
  {
    if start == 255 {
      JoinIsGroups(f);
      form := Full(Texts(f));
    } else {
      JoinIsGroups(f[..start]);
      JoinIsGroups(f[start + len..]);
      form := Short(Texts(f[..start]), Texts(f[start + len..]));
      assert f == f[..start] + Zeros(len) + f[start + len..];
    }
  }

  lemma PrintForm(f: seq<uint16>) returns (form: Form)
    requires |f| == 8
    ensures FormOk(form) && FormText(form) == Print(f) && FormValue(form) == f
  {
    LongestIsChosen(f, 0, 255, 1);
    var (start, len) := LongestFrom(f, 0, 255, 1);
    form := CompressedForm(f, start, len);
  }

  // ---------- the printing loop ----------

  /** What the second loop still prints from field n on. */
  function PrintFrom(f: seq<uint16>, start: nat, len: nat, n: nat): string
    requires len > 0
    decreases |f| - n
  {
    if n >= |f| then ""
    else if n == start then (if n == 0 then "::" else ":") + PrintFrom(f, start, len, n + len)
    else HexText(f[n]) + (if n + 1 != |f| then ":" else "") + PrintFrom(f, start, len, n + 1)
  }

  lemma {:induction false} PrintFromJoins(f: seq<uint16>, start: nat, len: nat, n: nat)
    requires len > 0 && n <= |f| && (start < n || |f| <= start)
    ensures PrintFrom(f, start, len, n) == Join(f[n..])
    decreases |f| - n
  {
    if n < |f| {
      PrintFromJoins(f, start, len, n + 1);
      assert f[n..][1..] == f[n + 1..];
    }
  }

  lemma {:induction false} PrintFromCompresses(f: seq<uint16>, start: nat, len: nat, n: nat)
    requires ZeroRun(f, start, len) && n < start
    ensures PrintFrom(f, start, len, n) == Join(f[n..start]) + "::" + Join(f[start + len..])
    decreases start - n
  {
    var tail := Join(f[start + len..]);
    var h := HexText(f[n]);
    if n + 1 == start {
      PrintFromJoins(f, start, len, start + len);
      assert f[n..start] == [f[n]];
      assert h + ":" + (":" + tail) == h + "::" + tail;
    } else {
      PrintFromCompresses(f, start, len, n + 1);
      assert f[n..start][1..] == f[n + 1..start];
      Regroup(h, Join(f[n + 1..start]), "::", tail);
    }
  }

  lemma PrintFromIsPrint(f: seq<uint16>)
    requires |f| == 8
    ensures var (start, len) := LongestFrom(f, 0, 255, 1);
            len > 0 && PrintFrom(f, start, len, 0) == Print(f)
  {
    LongestIsChosen(f, 0, 255, 1);
    var (start, len) := LongestFrom(f, 0, 255, 1);
    if start == 255 {
      PrintFromJoins(f, start, len, 0);
      assert f[0..] == f;
    } else if start == 0 {
      PrintFromJoins(f, start, len, len);
      assert Join(f[..0]) + "::" + Join(f[len..]) == "::" + Join(f[len..]);
    } else {
      PrintFromCompresses(f, start, len, 0);
      assert f[0..start] == f[..start];
    }
  }

  // ---------- ip6tos ----------

  /** part = *addr++; part = (part << 8) | *addr++ */
  method NextPart(addr: seq<bv8>, at: nat) returns (part: uint16, next: nat)
    requires |addr| % 2 == 0 && at % 2 == 0 && at < |addr|
    ensures part == FieldsOf(addr)[at / 2] && next == at + 2
  {
    part := Join16(addr[at], addr[at + 1]);
    next := at + 2;
  }

  /** The inner loop: from a zero field on to the end of its run; `at` may pass the non-zero field. */
  method SkipZeros(addr: seq<bv8>, from: nat) returns (n: nat, at: nat)
    requires |addr| == 16 && from <= 8
    ensures n == RunEnd(FieldsOf(addr), from) && (n < 8 ==> at == 2 * n + 2)
  {
    n, at := from, 2 * from;
    while n < 8
      invariant from <= n <= 8 && at == 2 * n
      invariant RunEnd(FieldsOf(addr), from) == RunEnd(FieldsOf(addr), n)
    {
      var part;
      part, at := NextPart(addr, at);
      if part != 0 {
        break;
      }
      n := n + 1;
    }
  }

  /** What one turn of the pre-scan does to the longest run. */
  lemma LongestStep(f: seq<uint16>, n: nat, start: nat, len: nat)
    requires n < |f|
    ensures f[n] != 0 ==> LongestFrom(f, n, start, len) == LongestFrom(f, n + 1, start, len)
    ensures f[n] == 0 ==>
              var e := RunEnd(f, n + 1);
              LongestFrom(f, n, start, len) ==
              if e - n > len then LongestFrom(f, e + 1, n, e - n) else LongestFrom(f, e + 1, start, len)
  {
  }

  /** The body of the pre-scan: a field that is not zero, or a whole run and the field that ends it. */
  method ScanNext(addr: seq<bv8>, n0: nat, at0: nat, zeroStart0: nat, zeroLen0: nat)
    returns (n: nat, at: nat, zeroStart: nat, zeroLen: nat)
    requires |addr| == 16 && n0 < 8 && at0 == 2 * n0
    ensures n0 < n <= 9 && (n < 8 ==> at == 2 * n)
    ensures LongestFrom(FieldsOf(addr), n, zeroStart, zeroLen) == LongestFrom(FieldsOf(addr), n0, zeroStart0, zeroLen0)
  {
    LongestStep(FieldsOf(addr), n0, zeroStart0, zeroLen0);
    zeroStart, zeroLen := zeroStart0, zeroLen0;
    var part;
    assert at0 % 2 == 0 && at0 / 2 == n0;
    part, at := NextPart(addr, at0);
    if part != 0 {
      n := n0 + 1;
      return;
    }
    n, at := SkipZeros(addr, n0 + 1);
    assert n0 < n <= 8;
    if n - n0 > zeroLen {
      zeroStart, zeroLen := n0, n - n0;
    }
    n := n + 1;
  }

  /** The pre-scan of ip6tos: one pass over the bytes for the zero run to shorten. */
  method FindZeros(addr: seq<bv8>) returns (zeroStart: nat, zeroLen: nat)
    requires |addr| == 16
    ensures Chosen(FieldsOf(addr), zeroStart, zeroLen)
    ensures (zeroStart, zeroLen) == LongestFrom(FieldsOf(addr), 0, 255, 1)
  {
    zeroStart, zeroLen := 255, 1;
    var n, at := 0, 0;
    ghost var best := LongestFrom(FieldsOf(addr), 0, 255, 1);
    while n < 8
      invariant n <= 9 && (n < 8 ==> at == 2 * n)
      invariant best == LongestFrom(FieldsOf(addr), n, zeroStart, zeroLen)
      decreases 9 - n
    {
      n, at, zeroStart, zeroLen := ScanNext(addr, n, at, zeroStart, zeroLen);
    }
    LongestIsChosen(FieldsOf(addr), 0, 255, 1);
  }

  /** The buffer after text has been written at p0, possibly with one more character behind it. */
  predicate Wrote(out: seq<char>, was: seq<char>, p0: nat, text: string) {
    p0 + |text| < |out| == |was| && out[p0..p0 + |text|] == text &&
    forall k :: 0 <= k < |out| && (k < p0 || p0 + |text| < k) ==> out[k] == was[k]
  }

  /** *p++ = c */
  method PutChar(out: array<char>, p: nat, c: char, ghost was: seq<char>, ghost p0: nat, ghost text: string)
    returns (next: nat)
    requires Wrote(out[..], was, p0, text) && p == p0 + |text| && p + 1 < out.Length
    modifies out
    ensures Wrote(out[..], was, p0, text + [c]) && next == p + 1
  {
    out[p] := c;
    next := p + 1;
    assert out[p0..next] == out[p0..p] + [c];
  }

  /** sprintf(p, ...) of the characters s: writes them and a NUL. */
  method Sprintf(out: array<char>, p: nat, s: string, ghost was: seq<char>, ghost p0: nat, ghost text: string)
    returns (next: nat)
    requires Wrote(out[..], was, p0, text) && p == p0 + |text| && p + |s| < out.Length
    modifies out
    ensures Wrote(out[..], was, p0, text + s) && next == p + |s| && out[next] == NUL
  {
    next := p;
    assert text + s[..0] == text;
    for i := 0 to |s|
      invariant next == p + i && Wrote(out[..], was, p0, text + s[..i])
    {
      assert text + s[..i + 1] == text + s[..i] + [s[i]];
      next := PutChar(out, next, s[i], was, p0, text + s[..i]);
    }
    assert s[..|s|] == s;
    out[next] := NUL;
  }

  /** The zero run in the second loop: "::" at the start, ":" after a field's own colon. */
  method PutRun(out: array<char>, p: nat, n: nat, ghost was: seq<char>, ghost p0: nat, ghost text: string)
    returns (next: nat, ghost more: string)
    requires Wrote(out[..], was, p0, text) && p == p0 + |text| && p + 2 < out.Length
    modifies out
    ensures more == (if n == 0 then "::" else ":")
    ensures Wrote(out[..], was, p0, text + more) && next == p0 + |text + more|
  {
    next, more := p, "";
    if n == 0 {
      next := PutChar(out, next, ':', was, p0, text);
      more := ":";
    } else {
      assert text + "" == text;
    }
    next := PutChar(out, next, ':', was, p0, text + more);
    more := more + ":";
    assert text + more == text + more[..|more| - 1] + ":";
  }

  /** A field in the second loop: `%x`, and a colon unless it is the last. */
  method PutPart(out: array<char>, p: nat, part: uint16, n: nat,
                 ghost was: seq<char>, ghost p0: nat, ghost text: string)
    returns (next: nat, ghost more: string)
    requires Wrote(out[..], was, p0, text) && p == p0 + |text| && p + (if n != 8 then 5 else 4) < out.Length
    modifies out
    ensures more == HexText(part) + (if n != 8 then ":" else "") && |more| <= (if n != 8 then 5 else 4)
    ensures Wrote(out[..], was, p0, text + more) && next == p0 + |text + more|
  {
    HexTextCanonical(part);
    next := Sprintf(out, p, HexText(part), was, p0, text);
    more := HexText(part);
    if n != 8 {
      next := PutChar(out, next, ':', was, p0, text + more);
      assert text + more + [':'] == text + (more + ":");
      more := more + ":";
    }
  }

  lemma Regroup3(a: string, b: string, c: string)
    ensures a + (b + c) == a + b + c
  {
  }

  /** The body of the second loop: the zero run, or the next field. */
  method PutNext(addr: seq<bv8>, out: array<char>, p0: nat, n0: nat, at0: nat, zeroStart: nat, zeroLen: nat,
                 ghost was: seq<char>, ghost start: nat, ghost text: string)
    returns (p: nat, n: nat, at: nat, ghost more: string)
    requires |addr| == 16 && n0 < 8 && at0 == 2 * n0 && 0 < zeroLen && (n0 == zeroStart ==> 2 <= zeroLen <= 8 - n0)
    requires Wrote(out[..], was, start, text) && p0 == start + |text|
    requires |text| <= 5 * n0 && start + 39 < out.Length
    modifies out
    ensures n0 < n <= 8 && at == 2 * n && p == start + |text + more| && Wrote(out[..], was, start, text + more)
    ensures |text + more| <= 5 * n && |text + more| <= 39
    ensures PrintFrom(FieldsOf(addr), zeroStart, zeroLen, n0) ==
            more + PrintFrom(FieldsOf(addr), zeroStart, zeroLen, n)
  {
    n, at := n0, at0;
    if n == zeroStart {
      p, more := PutRun(out, p0, n, was, start, text);
      at := at + 2 * zeroLen;
      n := n + zeroLen;
    } else {
      var part;
      part, at := NextPart(addr, at);
      n := n + 1;
      p, more := PutPart(out, p0, part, n, was, start, text);
    }
  }

  /**
    * ip6tos: writes the canonical text of the address and a NUL at p, within 40 characters, and
    * returns its length. Nothing else in the buffer changes.
    */
  method Ip6tos(addr: seq<bv8>, out: array<char>, p0: nat) returns (length: nat)
    requires |addr| == 16 && p0 + 40 <= out.Length
    modifies out
    ensures length == |Print(FieldsOf(addr))| <= 39
    ensures Wrote(out[..], old(out[..]), p0, Print(FieldsOf(addr))) && out[p0 + length] == NUL
  {
    ghost var f, was, text, more := FieldsOf(addr), out[..], "", "";
    PrintFromIsPrint(f);
    var zeroStart, zeroLen := FindZeros(addr);
    assert zeroStart < 8 ==> 2 <= zeroLen <= 8 - zeroStart;
    var p, n, at: nat := p0, 0, 0;
    while n < 8
      invariant n <= 8 && at == 2 * n && p == p0 + |text| && Wrote(out[..], was, p0, text)
      invariant |text| <= 5 * n && |text| <= 39
      invariant text + PrintFrom(f, zeroStart, zeroLen, n) == Print(f)
    {
      ghost var rest := PrintFrom(f, zeroStart, zeroLen, n);
      p, n, at, more := PutNext(addr, out, p, n, at, zeroStart, zeroLen, was, p0, text);
      Regroup3(text, more, PrintFrom(f, zeroStart, zeroLen, n));
      text := text + more;
    }
    assert text + "" == text;
    out[p] := NUL;
    length := p - p0;
  }

  // ---------- main results ----------

  /** Printing any address and parsing the text gives the address back. */
  lemma PrintParse(f: seq<uint16>)
    requires |f| == 8
    ensures Parse(Print(f)) == Some(f)
  {
    var form := PrintForm(f);
    FormAccepted(form);
  }

  /** The same for the sixteen bytes of an address. */
  lemma AddressRoundTrip(addr: seq<bv8>)
    requires |addr| == 16
    ensures var r := Parse(Print(FieldsOf(addr))); r.Some? && BytesOf(r.value) == addr
  {
    PrintParse(FieldsOf(addr));
    BytesOfFieldsOf(addr);
  }

  /** Different addresses print differently. */
  lemma PrintInjective(f: seq<uint16>, g: seq<uint16>)
    requires |f| == 8 && |g| == 8 && Print(f) == Print(g)
    ensures f == g
  {
    PrintParse(f);
    PrintParse(g);
  }

  /** Printing what was parsed gives a text that parses, and prints, to the same thing again. */
  lemma ReprintIdempotent(t: string)
    requires Parse(t).Some?
    ensures var s := Print(Parse(t).value); Parse(s) == Parse(t) && Print(Parse(s).value) == s
  {
    PrintParse(Parse(t).value);
  }

  // ---------- the canonical form ----------

  /** Digits, lower-case hexadecimal letters and colons only. */
  predicate LowerHexOrColon(t: string) {
    forall i :: 0 <= i < |t| ==> IsDigit(t[i]) || 'a' <= t[i] <= 'f' || t[i] == ':'
  }

  lemma {:induction false} JoinText(fs: seq<uint16>)
    ensures LowerHexOrColon(Join(fs)) && NoDoubles(Join(fs))
  {
    JoinIsGroups(fs);
    GroupsFacts(Texts(fs));
    if fs != [] {
      var h := HexText(fs[0]);
      HexTextCanonical(fs[0]);
      assert forall i :: 0 <= i < |h| ==> HexDigit(h[i]);
      JoinText(fs[1..]);
    }
  }

  /**
    * The output is canonical in the sense of sections 4.1, 4.2 and 4.3 of RFC 5952: the chosen run is
    * shortened, "::" stands there exactly when two adjacent fields are zero, and letters are lower
    * case. There is exactly one such run. (That fields carry no leading zeros is HexTextCanonical.)
    */
  lemma PrintCanonical(f: seq<uint16>)
    requires |f| == 8
    ensures exists start: nat, len: nat :: Chosen(f, start, len)
    ensures forall start: nat, len: nat :: Chosen(f, start, len) ==> Print(f) == Compressed(f, start, len)
    ensures (exists i :: DoubleColonAt(Print(f), i)) <==> exists i: nat, n: nat :: ZeroRun(f, i, n) && n >= 2
    ensures LowerHexOrColon(Print(f)) && |Print(f)| <= 39
  {
    var form := PrintForm(f);
    FormLength(form);
    LongestIsChosen(f, 0, 255, 1);
    var (start, len) := LongestFrom(f, 0, 255, 1);
    var t := Print(f);
    assert Chosen(f, start, len) && t == Compressed(f, start, len);
    forall i: nat, m: nat | Chosen(f, i, m) ensures t == Compressed(f, i, m) {
      ChosenIsUnique(f, i, m, start, len);
    }
    if start == 255 {
      JoinText(f);
    } else {
      var head := Join(f[..start]);
      JoinText(f[..start]);
      JoinText(f[start + len..]);
      assert DoubleColonAt(t, |head|);
    }
  }

  // ---------- examples ----------

  lemma ExampleDigits()
    ensures HexText(0) == "0" && HexText(1) == "1" && HexText(0xdb8) == "db8" && HexText(0x2001) == "2001"
  {
    assert HexText(0xdb) == "d" + "b" && HexText(0x20) == "2" + "0";
    assert HexText(0x200) == "20" + "0";
  }

  /** The chosen run decides the text, which is read back with digits of either case. */
  lemma PrintsAs(f: seq<uint16>, start: nat, len: nat, l: seq<uint16>, r: seq<uint16>, upper: string)
    requires |f| == 8 && start + len <= 8 && Chosen(f, start, len) && l == f[..start] && r == f[start + len..]
    requires Lower(upper) == Join(l) + "::" + Join(r)
    ensures Print(f) == Lower(upper) && Parse(upper) == Some(f)
  {
    PrintCanonical(f);
    PrintParse(f);
    ParseIgnoresCase(upper);
  }

  lemma JoinMore(x: uint16, fs: seq<uint16>, t: string)
    requires t == if fs == [] then HexText(x) else HexText(x) + ":" + Join(fs)
    ensures Join([x] + fs) == t
  {
    assert ([x] + fs)[1..] == fs;
  }

  lemma LongestRun(f: seq<uint16>)
    requires f == [0x2001, 0, 0, 1, 0, 0, 0, 1]
    ensures Chosen(f, 4, 3)
  {
    forall i: nat, n: nat | ZeroRun(f, i, n)
      ensures n < 3 || (n == 3 && 4 <= i)
    {
      assert f[0] != 0 && f[3] != 0 && f[7] != 0;
    }
  }

  /** An example of section 4.2.3 of RFC 5952: the longer of two runs is shortened. */
  lemma LongestRunExample(f: seq<uint16>)
    requires f == [0x2001, 0, 0, 1, 0, 0, 0, 1]
    ensures Print(f) == "2001:0:0:1::1"
  {
    LongestRun(f);
    ExampleDigits();
    JoinMore(1, [], "1");
    JoinMore(0, [1] + [], "0:1");
    JoinMore(0, [0] + ([1] + []), "0:0:1");
    JoinMore(0x2001, [0] + ([0] + ([1] + [])), "2001:0:0:1");
    LowerIs("2001:0:0:1::1", "2001:0:0:1::1");
    PrintsAs(f, 4, 3, [0x2001] + ([0] + ([0] + ([1] + []))), [1] + [], "2001:0:0:1::1");
  }

  lemma LowerIs(t: string, u: string)
    requires |t| == |u| && forall i :: 0 <= i < |t| ==> LowerChar(t[i]) == u[i]
    ensures Lower(t) == u
  {
  }

  lemma FirstRun(f: seq<uint16>)
    requires f == [0x2001, 0xdb8, 0, 0, 1, 0, 0, 1]
    ensures Chosen(f, 2, 2)
  {
    forall i: nat, n: nat | ZeroRun(f, i, n)
      ensures n < 2 || (n == 2 && 2 <= i)
    {
      assert f[0] != 0 && f[1] != 0 && f[4] != 0 && f[7] != 0;
    }
  }

  lemma FirstRunSides() returns (l: seq<uint16>, r: seq<uint16>)
    ensures l == [0x2001, 0xdb8] && Join(l) == "2001:db8"
    ensures r == [1, 0, 0, 1] && Join(r) == "1:0:0:1"
  {
    ExampleDigits();
    l, r := [0x2001] + ([0xdb8] + []), [1] + ([0] + ([0] + ([1] + [])));
    JoinMore(0xdb8, [], "db8");
    JoinMore(0x2001, [0xdb8] + [], "2001:db8");
    JoinMore(1, [], "1");
    JoinMore(0, [1] + [], "0:1");
    JoinMore(0, [0] + ([1] + []), "0:0:1");
    JoinMore(1, [0] + ([0] + ([1] + [])), "1:0:0:1");
  }

  /** The other one: of two equally long runs the first is shortened. Upper case reads the same. */
  lemma FirstRunExample(f: seq<uint16>)
    requires f == [0x2001, 0xdb8, 0, 0, 1, 0, 0, 1]
    ensures Print(f) == "2001:db8::1:0:0:1" && Parse("2001:DB8::1:0:0:1") == Some(f)
  {
    FirstRun(f);
    var l, r := FirstRunSides();
    LowerIs("2001:DB8::1:0:0:1", "2001:db8::1:0:0:1");
    PrintsAs(f, 2, 2, l, r, "2001:DB8::1:0:0:1");
  }
}
