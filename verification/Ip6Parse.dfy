/** stoip6 over a character buffer: the loops that fill the destination in place. */
module Ip6Parse {
  import opened Ip6Text
  import opened Ip6Grammar
  import opened Options

  /**
    * What both call styles give stoip6: no NUL inside the text, and a character after it that ends
    * the scan (the terminating NUL, or the '/' of a prefix).
    */
  predicate Terminated(text: string, len: nat) {
    len < |text| && (forall i :: 0 <= i < len ==> text[i] != NUL) && !HexDigit(text[len]) && text[len] != ':'
  }

  /** Conversion to uint16_t. */
  function Trunc16(v: nat): uint16 { v % 0x1_0000 }

  /** hex(): the uint16_t value of the digits from p up to the first other character, at `end`. */
  method Hex(text: string, p: nat, ghost end: nat) returns (val: uint16)
    requires p <= end < |text| && AllHex(text[p..end]) && !HexDigit(text[end])
    ensures val == Trunc16(HexValue(text[p..end]))
  {
    val := 0;
    var i := p;
    ghost var s := "";
    while true
      invariant p <= i <= end && s == text[p..i] && AllHex(s)
      invariant val == Trunc16(HexValue(s))
      decreases end - i
    {
      var c := text[i];
      assert i < end ==> HexDigit(text[p..end][i - p]);
      if !HexDigit(c) {
        break;
      }
      val := ShiftDigit(val, c, s);
      OneMore(text, p, i);
      s := s + [c];
      i := i + 1;
    }
  }

  /** val = (val << 4) | digit */
  method ShiftDigit(val: uint16, c: char, ghost s: string) returns (v: uint16)
    requires AllHex(s) && HexDigit(c) && val == Trunc16(HexValue(s))
    ensures AllHex(s + [c]) && v == Trunc16(HexValue(s + [c]))
  {
    ShiftIn(s, c);
    v := Trunc16(16 * val + DigitValue(c));
  }

  lemma OneMore(text: string, p: nat, i: nat)
    requires p <= i < |text|
    ensures text[p..i + 1] == text[p..i] + [text[i]]
  {
  }

  lemma ShiftIn(s: string, c: char)
    requires AllHex(s) && HexDigit(c)
    ensures AllHex(s + [c])
    ensures Trunc16(HexValue(s + [c])) == Trunc16(16 * Trunc16(HexValue(s)) + DigitValue(c))
  {
    assert (s + [c])[..|s|] == s;
    Shift16(HexValue(s), DigitValue(c));
  }

  lemma Shift16(v: nat, d: nat)
    ensures Trunc16(16 * v + d) == Trunc16(16 * Trunc16(v) + d)
  {
    var q := v / 0x1_0000;
    var x := 16 * Trunc16(v) + d;
    Remainder(16 * v + d, 16 * q + x / 0x1_0000, Trunc16(x));
  }

  lemma Remainder(x: nat, q: nat, r: nat)
    requires x == 0x1_0000 * q + r && r < 0x1_0000
    ensures x % 0x1_0000 == r
  {
  }

  /** The inner loop: moves q to the next colon or the end, counting `rem` down; false at a character
      that is neither hexadecimal nor a colon. */
  method SeekColon(text: string, p: nat, left: nat) returns (ok: bool, q: nat, rem: nat)
    requires Terminated(text, p + left)
    ensures var t := text[p..p + left];
            if AllHex(t[..Run(t)]) then ok && q == p + Run(t) && rem == left - Run(t) else !ok
  {
    ghost var t := text[p..p + left];
    q, rem := p, left;
    while rem != 0 && text[q] != NUL && text[q] != ':'
      invariant p <= q && q + rem == p + left
      invariant forall i :: 0 <= i < q - p ==> t[i] != ':' && HexDigit(t[i])
    {
      IsHexIsHexDigit(text[q]);
      assert t[q - p] == text[q];
      if !IsHex(text[q]) {
        assert !HexDigit(t[..Run(t)][q - p]);
        return false, q, rem;
      }
      q, rem := q + 1, rem - 1;
    }
    assert rem != 0 ==> t[q - p] == text[q];
    RunIs(t, q - p);
    ok := true;
  }

  /** The text that the main loop has still to read. */
  function Rest(text: string, p: nat, left: nat): string
    requires left == 0 || p + left <= |text|
  {
    if left == 0 then "" else text[p..p + left]
  }

  /** common_write_16_bit into the destination buffer. */
  method Write16(dest: array<bv8>, at: nat, v: uint16)
    requires at + 2 <= dest.Length
    modifies dest
    ensures dest[..] == old(dest[..])[at := Hi(v)][at + 1 := Lo(v)]
  {
    dest[at] := Hi(v);
    dest[at + 1] := Lo(v);
  }

  /** Nothing behind the sixteen address bytes has changed. */
  predicate TailKept(bytes: seq<bv8>, was: seq<bv8>) {
    16 <= |bytes| == |was| && forall k :: 16 <= k < |bytes| ==> bytes[k] == was[k]
  }

  /** The destination starts with the fields read so far. */
  predicate Filled(bytes: seq<bv8>, was: seq<bv8>, fs: seq<uint16>) {
    TailKept(bytes, was) && 2 * |fs| <= 16 && forall k: nat :: k < 2 * |fs| ==> bytes[k] == ByteAt(fs, k)
  }

  lemma FillOne(bytes: seq<bv8>, was: seq<bv8>, fs: seq<uint16>, v: uint16)
    requires Filled(bytes, was, fs) && |fs| < 8
    ensures Filled(bytes[2 * |fs| := Hi(v)][2 * |fs| + 1 := Lo(v)], was, fs + [v])
  {
  }

  /** hex(p) where the digits end at q, at a colon or at the end of the text. */
  method ReadField(text: string, p: nat, q: nat, ghost rem: nat) returns (v: uint16)
    requires Terminated(text, q + rem) && p <= q <= p + 4 && AllHex(text[p..q]) && (rem != 0 ==> text[q] == ':')
    ensures v == FieldValue(text[p..q])
  {
    v := Hex(text, p, q);
    HexValueBound(text[p..q]);
  }

  /** The first half of the main loop's body: reads one field and writes it. */
  method ReadPart(text: string, p: nat, left: nat, dest: array<bv8>, fieldNo: nat,
                  ghost was: seq<bv8>, ghost fs: seq<uint16>)
    returns (ok: bool, q: nat, rem: nat)
    requires Terminated(text, p + left) && 16 <= dest.Length
    requires fieldNo == |fs| <= 8 && Filled(dest[..], was, fs)
    modifies dest
    ensures var t := text[p..p + left];
            ok == (fieldNo != 8 && FieldAhead(t)) &&
            if ok then q == p + Run(t) && rem == left - Run(t) &&
                       Filled(dest[..], was, fs + [FieldValue(t[..Run(t)])])
            else Filled(dest[..], was, fs)
  {
    ok, q, rem := SeekColon(text, p, left);
    if !ok || q - p > 4 || fieldNo == 8 {
      return false, q, rem;
    }
    ghost var t := text[p..p + left];
    assert text[p..q] == t[..Run(t)];
    assert rem != 0 ==> text[q] == t[Run(t)];
    var v := ReadField(text, p, q, rem);
    FillOne(dest[..], was, fs, v);
    Write16(dest, 2 * fieldNo, v);
  }

  /** What stands at q, with `rem` characters to go: nothing, ":" or "::" if `twice`, and then `after`. */
  ghost predicate ColonsAt(text: string, q: nat, rem: nat, twice: bool, after: string) {
    if rem == 0 then !twice && after == ""
    else
      && q + rem < |text| && text[q] == ':' && (twice <==> text[q + 1] == ':')
      && if twice then 2 <= rem && Rest(text, q + 2, rem - 2) == after else Rest(text, q + 1, rem - 1) == after
  }

  /** The second half: steps over the colon or colons at q, if any, noting where "::" was. */
  method SkipColons(text: string, q0: nat, rem0: nat, fieldNo: nat, gap: int, ghost twice: bool, ghost after: string)
    returns (ok: bool, next: nat, rem: nat, coloncolon: int)
    requires ColonsAt(text, q0, rem0, twice, after)
    ensures ok == !(twice && gap != -1)
    ensures ok ==> rem <= rem0 && (rem == 0 || next + rem == q0 + rem0) && Rest(text, next, rem) == after
    ensures ok ==> coloncolon == if twice then fieldNo else gap
  {
    var q := q0;
    rem, coloncolon := rem0, gap;
    if rem != 0 {
      if text[q] == ':' && text[q + 1] == ':' {
        if coloncolon != -1 {
          return false, q, rem, coloncolon;
        }
        coloncolon := fieldNo;
        q, rem := q + 1, rem - 2;
      } else {
        rem := rem - 1;
      }
    }
    ok, next := true, q + 1;
  }

  /** What the two colon tests see, and what is left behind them. */
  lemma ColonsAhead(text: string, p: nat, left: nat, t: string, n: nat)
    requires Terminated(text, p + left) && left != 0 && t == text[p..p + left] && n == Run(t)
    ensures ColonsAt(text, p + n, left - n, GapAhead(t), After(t))
  {
    if n != left {
      assert text[p + n] == t[n];
      assert n + 1 < left ==> text[p + n + 1] == t[n + 1];
    }
  }

  /** The body of the main loop. */
  method Turn(text: string, p0: nat, left0: nat, dest: array<bv8>, fieldNo0: nat, gap: int,
              ghost was: seq<bv8>, ghost fs0: seq<uint16>)
    returns (ok: bool, p: nat, left: nat, fieldNo: nat, coloncolon: int, ghost fs: seq<uint16>)
    requires Terminated(text, p0 + left0) && 16 <= dest.Length && left0 != 0
    requires fieldNo0 == |fs0| <= 8 && Filled(dest[..], was, fs0)
    modifies dest
    ensures Filled(dest[..], was, fs) && fieldNo == |fs| <= 8
    ensures ok ==> left < left0 && (left == 0 || p + left == p0 + left0)
    ensures Scan(text[p0..p0 + left0], fs0, gap) == if ok then Scan(Rest(text, p, left), fs, coloncolon) else Bad
  {
    ghost var t := text[p0..p0 + left0];
    var q, rem;
    fieldNo, coloncolon, fs := fieldNo0, gap, fs0;
    ok, q, rem := ReadPart(text, p0, left0, dest, fieldNo, was, fs);
    p, left := q, rem;
    if ok {
      fs := fs + [FieldValue(t[..Run(t)])];
      fieldNo := fieldNo + 1;
      ColonsAhead(text, p0, left0, t, Run(t));
      ok, p, left, coloncolon := SkipColons(text, q, rem, fieldNo, gap, GapAhead(t), After(t));
    }
  }

  /** The main loop of stoip6. */
  method ReadFields(text: string, len: nat, dest: array<bv8>) returns (ok: bool, fieldNo: nat, coloncolon: int)
    requires Terminated(text, len) && 16 <= dest.Length
    modifies dest
    ensures var r := Scan(text[..len], [], -1);
            if ok then r.Good? && r.gap == coloncolon && fieldNo == |r.fields| <= 8 &&
                       Filled(dest[..], old(dest[..]), r.fields)
            else r == Bad && TailKept(dest[..], old(dest[..]))
  {
    var p: nat, left: nat := 0, len;
    ghost var fs: seq<uint16>, was, r := [], dest[..], Scan(text[..len], [], -1);
    fieldNo, coloncolon, ok := 0, -1, true;
    assert Rest(text, 0, len) == text[..len];
    while ok && left != 0 && text[p] != NUL
      invariant ok ==> left == 0 || (p + left == len && text[p] != NUL)
      invariant fieldNo == |fs| <= 8 && Filled(dest[..], was, fs)
      invariant ok ==> r == Scan(Rest(text, p, left), fs, coloncolon)
      invariant !ok ==> r == Bad
      decreases ok, left
    {
      ok, p, left, fieldNo, coloncolon, fs := Turn(text, p, left, dest, fieldNo, coloncolon, was, fs);
    }
    assert ok ==> r == Good(fs, coloncolon);
  }

  // ---------- stoip6 ----------

  function ZeroBytes(n: nat): (bytes: seq<bv8>)
    ensures |bytes| == n
  {
    seq(n, _ => 0)
  }

  /** memset(dest + at, 0, n) */
  method Clear(dest: array<bv8>, at: nat, n: nat)
    requires at + n <= dest.Length
    modifies dest
    ensures forall k :: 0 <= k < dest.Length ==> dest[k] == if at <= k < at + n then 0 else old(dest[k])
  {
    for i := 0 to n
      invariant forall k :: 0 <= k < dest.Length ==> dest[k] == if at <= k < at + i then 0 else old(dest[k])
    {
      dest[at + i] := 0;
    }
  }

  /** memmove(dest + to, dest + from, n) towards the end of the buffer: the regions may overlap. */
  method MoveUp(dest: array<bv8>, to: nat, from: nat, n: nat)
    requires from <= to && to + n <= dest.Length
    modifies dest
    ensures forall k :: 0 <= k < dest.Length ==>
              dest[k] == old(dest[if to <= k < to + n then from + (k - to) else k])
  {
    for i := n downto 0
      invariant forall k :: 0 <= k < dest.Length ==>
                  dest[k] == old(dest[if to + i <= k < to + n then from + (k - to) else k])
    {
      dest[to + i] := dest[from + i];
    }
  }

  /** The bytes from `head` on have moved up to the sixteenth, and zeros are in their place. */
  predicate Opened(mid: seq<bv8>, now: seq<bv8>, head: nat, size: nat) {
    16 <= |mid| == |now| && head + size <= 16 && forall k :: 0 <= k < |now| ==>
      now[k] == if head <= k < head + size then 0 else mid[if head + size <= k < 16 then k - size else k]
  }

  /** The memmove and the memset that make room for `insertedSize` zero bytes. */
  method OpenGap(dest: array<bv8>, headSize: nat, insertedSize: nat, tailSize: nat)
    requires headSize + insertedSize + tailSize == 16 <= dest.Length
    modifies dest
    ensures Opened(old(dest[..]), dest[..], headSize, insertedSize)
  {
    MoveUp(dest, headSize + insertedSize, headSize, tailSize);
    Clear(dest, headSize, insertedSize);
  }

  /** The expansion of "::": the fields after it move to the end and zeros take their place. */
  method InsertZeros(dest: array<bv8>, coloncolon: nat, fieldNo: nat, ghost fs: seq<uint16>, ghost was: seq<bv8>)
    requires 16 <= dest.Length && coloncolon <= fieldNo == |fs| <= 8
    requires Filled(dest[..], was, fs)
    modifies dest
    ensures Filled(dest[..], was, fs[..coloncolon] + Zeros(8 - fieldNo) + fs[coloncolon..])
  {
    var headSize, insertedSize := 2 * coloncolon, 2 * (8 - fieldNo);
    ghost var mid := dest[..];
    OpenGap(dest, headSize, insertedSize, 16 - headSize - insertedSize);
    Inserted(mid, dest[..], was, fs, coloncolon);
  }

  lemma Inserted(mid: seq<bv8>, now: seq<bv8>, was: seq<bv8>, fs: seq<uint16>, gap: nat)
    requires Filled(mid, was, fs) && gap <= |fs| <= 8 && Opened(mid, now, 2 * gap, 2 * (8 - |fs|))
    ensures Filled(now, was, fs[..gap] + Zeros(8 - |fs|) + fs[gap..])
  {
    var head, ins, all := 2 * gap, 2 * (8 - |fs|), fs[..gap] + Zeros(8 - |fs|) + fs[gap..];
    forall k: nat | k < 16 ensures now[k] == ByteAt(all, k) {
      if head <= k < head + ins {
        assert all[k / 2] == 0;
      } else {
        var j := if head + ins <= k then k - ins else k;
        assert all[k / 2] == fs[j / 2] && k % 2 == j % 2;
        assert ByteAt(all, k) == ByteAt(fs, j);
      }
    }
  }

  /**
    * stoip6: on success the sixteen bytes of the address the text spells; on failure sixteen zero
    * bytes. Nothing behind them is written.
    */
  method Stoip6(text: string, len: nat, dest: array<bv8>) returns (ok: bool)
    requires Terminated(text, len) && 16 <= dest.Length
    modifies dest
    ensures dest[16..] == old(dest[16..])
    ensures ok == Parse(text[..len]).Some?
    ensures dest[..16] == if ok then BytesOf(Parse(text[..len]).value) else ZeroBytes(16)
  {
    ghost var was, address := dest[..], Parse(text[..len]);
    ok := ReadAddress(text, len, dest, address);
    if ok {
      FilledBytes(dest[..], was, address.value);
    } else {
      Clear(dest, 0, 16);
    }
  }

  lemma FilledBytes(bytes: seq<bv8>, was: seq<bv8>, f: seq<uint16>)
    requires Filled(bytes, was, f) && |f| == 8
    ensures bytes[..16] == BytesOf(f) && bytes[16..] == was[16..]
  {
  }

  /** stoip6 up to its single exit, where a failure clears the destination. */
  method ReadAddress(text: string, len: nat, dest: array<bv8>, ghost address: Option<seq<uint16>>) returns (ok: bool)
    requires Terminated(text, len) && 16 <= dest.Length && address == Parse(text[..len])
    modifies dest
    ensures ok == address.Some?
    ensures if ok then Filled(dest[..], old(dest[..]), address.value) else TailKept(dest[..], old(dest[..]))
  {
    ghost var was := dest[..];
    ghost var r := ParseByScan(text[..len]);
    ok := false;
    if len <= 39 {
      var fieldNo, coloncolon;
      ok, fieldNo, coloncolon := ReadFields(text, len, dest);
      if ok {
        if coloncolon != -1 {
          InsertZeros(dest, coloncolon, fieldNo, r.fields, was);
          assert address == Some(r.fields[..coloncolon] + Zeros(8 - fieldNo) + r.fields[coloncolon..]);
        } else if fieldNo != 8 {
          ok := false;
        }
      }
    }
  }

  /** The address by cases of what the main loop has read. */
  lemma ParseByScan(t: string) returns (r: Scanned)
    ensures r == Scan(t, [], -1)
    ensures r.Good? ==> |r.fields| <= 8 && -1 <= r.gap <= |r.fields|
    ensures Parse(t) == if |t| > 39 || r.Bad? then None
                        else if r.gap != -1 then
                          Some(r.fields[..r.gap] + Zeros(8 - |r.fields|) + r.fields[r.gap..])
                        else if |r.fields| == 8 then Some(r.fields) else None
  {
    r := Scan(t, [], -1);
    ScanBounds(t, [], -1);
  }
}
