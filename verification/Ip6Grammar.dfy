/** Which texts stoip6 accepts, and what they mean: the scanner of its main loop as a function, a
    declarative grammar, and the proof that the two agree. */
module Ip6Grammar {
  import opened Ip6Text
  import opened Options

  // ---------- the scanner ----------

  /** The loop's outcome: a syntax error, or the fields read and where "::" stood (-1 if nowhere). */
  datatype Scanned = Bad | Good(fields: seq<uint16>, gap: int)

  /** The text goes on with a field of at most four hexadecimal digits. */
  predicate FieldAhead(t: string) {
    Run(t) <= 4 && AllHex(t[..Run(t)])
  }

  /** That field ends in "::". */
  predicate GapAhead(t: string) {
    Run(t) + 1 < |t| && t[Run(t) + 1] == ':'
  }

  /** What is left after the field and its separator. */
  function After(t: string): string {
    if Run(t) == |t| then "" else if GapAhead(t) then t[Run(t) + 2..] else t[Run(t) + 1..]
  }

  /** The main loop from the point where `t` remains, `fs` has been written and `gap` was noted. */
  function Scan(t: string, fs: seq<uint16>, gap: int): Scanned
    decreases |t|
  {
    if t == "" then Good(fs, gap)
    else if |fs| == 8 || !FieldAhead(t) || (GapAhead(t) && gap != -1) then Bad
    else
      var gs := fs + [FieldValue(t[..Run(t)])];
      Scan(After(t), gs, if GapAhead(t) then |gs| else gap)
  }

  lemma {:induction false} ScanBounds(t: string, fs: seq<uint16>, gap: int)
    requires |fs| <= 8 && -1 <= gap <= |fs|
    ensures var r := Scan(t, fs, gap); r.Good? ==> |r.fields| <= 8 && -1 <= r.gap <= |r.fields|
    decreases |t|
  {
    if t != "" && Scan(t, fs, gap).Good? {
      var gs := fs + [FieldValue(t[..Run(t)])];
      ScanBounds(After(t), gs, if GapAhead(t) then |gs| else gap);
    }
  }

  function Zeros(n: nat): (fs: seq<uint16>)
    ensures |fs| == n
  {
    seq(n, _ => 0)
  }

  /** Zero fields fill the gap up to eight; without a gap there must be eight already. */
  function Expand(fs: seq<uint16>, gap: int): (f: Option<seq<uint16>>)
    requires |fs| <= 8 && -1 <= gap <= |fs|
    ensures f.Some? ==> |f.value| == 8
  {
    if gap != -1 then Some(fs[..gap] + Zeros(8 - |fs|) + fs[gap..])
    else if |fs| == 8 then Some(fs)
    else None
  }

  /** What stoip6 makes of the text t: the eight fields of the address, or an error. */
  function Parse(t: string): (f: Option<seq<uint16>>)
    ensures f.Some? ==> |f.value| == 8
  {
    ScanBounds(t, [], -1);
    var r := Scan(t, [], -1);
    if |t| > 39 || r.Bad? then None else Expand(r.fields, r.gap)
  }

  // ---------- the grammar ----------

  /** Some hexadecimal digits and the separator after them: ":", "::", or nothing at the end. */
  datatype Piece = Piece(digits: string, sep: string)

  function TextOf(ps: seq<Piece>): string {
    if ps == [] then "" else ps[0].digits + ps[0].sep + TextOf(ps[1..])
  }

  predicate PieceOk(p: Piece) {
    AllHex(p.digits) && |p.digits| <= 4 && p.sep in {"", ":", "::"}
  }

  /**
    * Only the last piece may lack a separator, and then it has digits; an empty field may follow
    * "::" but not ":", because two adjacent colons always read as "::".
    */
  predicate Spelled(ps: seq<Piece>) {
    ps == [] ||
    (PieceOk(ps[0]) && Spelled(ps[1..]) &&
     (ps[0].sep == "" ==> |ps| == 1 && ps[0].digits != "") &&
     (ps[0].sep == ":" ==> |ps| == 1 || ps[1].digits != ""))
  }

  function Values(ps: seq<Piece>): (fs: seq<uint16>)
    requires Spelled(ps)
    ensures |fs| == |ps|
  {
    if ps == [] then [] else [FieldValue(ps[0].digits)] + Values(ps[1..])
  }

  /** How often "::" occurs. */
  function Gaps(ps: seq<Piece>): nat {
    if ps == [] then 0 else (if ps[0].sep == "::" then 1 else 0) + Gaps(ps[1..])
  }

  /** The number of fields before the first "::", or -1. */
  function GapOf(ps: seq<Piece>): (g: int)
    ensures -1 <= g <= |ps|
    ensures g == -1 <==> Gaps(ps) == 0
  {
    if ps == [] then -1
    else if ps[0].sep == "::" then 1
    else if GapOf(ps[1..]) == -1 then -1 else 1 + GapOf(ps[1..])
  }

  /**
    * The pieces spell text t and stand for the eight fields f: at most eight fields of at most four
    * digits, at most one "::", which stands for the zero fields that are missing.
    */
  predicate Spells(ps: seq<Piece>, t: string, f: seq<uint16>) {
    Spelled(ps) && TextOf(ps) == t && |ps| <= 8 && Gaps(ps) <= 1 &&
    Expand(Values(ps), GapOf(ps)) == Some(f)
  }

  // ---------- scanner and grammar agree ----------

  /** The scanner's position of "::" after reading pieces ps behind `before` fields. */
  function GapAfter(before: nat, gap: int, ps: seq<Piece>): int {
    if gap != -1 || GapOf(ps) == -1 then gap else before + GapOf(ps)
  }

  lemma FirstRun(ps: seq<Piece>)
    requires ps != [] && Spelled(ps)
    ensures Run(TextOf(ps)) == |ps[0].digits| && TextOf(ps)[..|ps[0].digits|] == ps[0].digits
    ensures TextOf(ps)[|ps[0].digits| + |ps[0].sep|..] == TextOf(ps[1..])
    ensures |TextOf(ps)| == |ps[0].digits| + |ps[0].sep| + |TextOf(ps[1..])|
    ensures TextOf(ps)[|ps[0].digits|..|ps[0].digits| + |ps[0].sep|] == ps[0].sep
  {
    var p, t := ps[0], TextOf(ps);
    var n := |p.digits|;
    if p.sep == "" {
      assert ps[1..] == [];
    } else {
      assert t[n] == p.sep[0];
    }
    forall i | 0 <= i < n ensures t[i] != ':' {
      assert t[i] == p.digits[i] && HexDigit(p.digits[i]);
    }
    RunIs(t, n);
  }

  /** The character after ":" is not another colon. */
  lemma AfterColon(ps: seq<Piece>)
    requires ps != [] && Spelled(ps) && ps[0].sep == ":" && TextOf(ps[1..]) != ""
    ensures TextOf(ps[1..])[0] != ':'
  {
    if |ps| > 1 {
      assert HexDigit(ps[1].digits[0]);
      assert TextOf(ps[1..])[0] == ps[1].digits[0];
    }
  }

  /** One turn of the loop reads one piece. */
  lemma ScanPiece(ps: seq<Piece>, fs: seq<uint16>, gap: int)
    requires ps != [] && Spelled(ps) && |fs| < 8 && (ps[0].sep == "::" ==> gap == -1)
    ensures var gs := fs + [FieldValue(ps[0].digits)];
            Scan(TextOf(ps), fs, gap) == Scan(TextOf(ps[1..]), gs, if ps[0].sep == "::" then |gs| else gap)
  {
    var t, n := TextOf(ps), |ps[0].digits|;
    FirstRun(ps);
    if ps[0].sep == "" {
      assert ps[1..] == [];
    } else if ps[0].sep == "::" {
      assert t[n..n + 2] == "::";
      assert t[n] == ':' && t[n + 1] == ':';
    } else {
      assert t[n..n + 1] == ":";
      if n + 1 < |t| {
        AfterColon(ps);
        assert t[n + 1] == t[n + 1..][0];
      }
    }
  }

  /** The scanner's answer once it has read pieces ps behind the fields fs. */
  function Reading(fs: seq<uint16>, gap: int, ps: seq<Piece>): Scanned
    requires Spelled(ps)
  {
    Good(fs + Values(ps), GapAfter(|fs|, gap, ps))
  }

  lemma ReadingCons(fs: seq<uint16>, gap: int, ps: seq<Piece>)
    requires ps != [] && Spelled(ps) && Gaps(ps) <= 1 && (gap == -1 || Gaps(ps) == 0)
    ensures var gs := fs + [FieldValue(ps[0].digits)];
            Reading(gs, if ps[0].sep == "::" then |gs| else gap, ps[1..]) == Reading(fs, gap, ps)
  {
    var v, vs := FieldValue(ps[0].digits), Values(ps[1..]);
    assert fs + [v] + vs == fs + ([v] + vs);
  }

  /** Every spelling is read as its fields. */
  lemma {:induction false} ScanComplete(ps: seq<Piece>, fs: seq<uint16>, gap: int)
    requires Spelled(ps) && |fs| + |ps| <= 8 && Gaps(ps) <= 1 && (gap == -1 || Gaps(ps) == 0)
    ensures Scan(TextOf(ps), fs, gap) == Reading(fs, gap, ps)
    decreases |ps|
  {
    if ps == [] {
      assert fs + [] == fs;
    } else {
      ScanPiece(ps, fs, gap);
      var gs := fs + [FieldValue(ps[0].digits)];
      ScanComplete(ps[1..], gs, if ps[0].sep == "::" then |gs| else gap);
      ReadingCons(fs, gap, ps);
    }
  }

  lemma ConsPiece(p: Piece, rest: seq<Piece>)
    requires PieceOk(p) && Spelled(rest)
    requires p.sep == "" ==> rest == [] && p.digits != ""
    requires p.sep == ":" ==> rest == [] || rest[0].digits != ""
    ensures Spelled([p] + rest) && TextOf([p] + rest) == p.digits + p.sep + TextOf(rest)
    ensures Gaps([p] + rest) == (if p.sep == "::" then 1 else 0) + Gaps(rest)
  {
    assert ([p] + rest)[1..] == rest;
  }

  /** A text is its first field, the separator after it, and what is left. */
  lemma HeadAndRest(t: string) returns (p: Piece)
    requires t != "" && FieldAhead(t)
    ensures p.digits == t[..Run(t)] && p.sep == if Run(t) == |t| then "" else if GapAhead(t) then "::" else ":"
    ensures PieceOk(p) && t == p.digits + p.sep + After(t) && |After(t)| < |t|
    ensures p.sep == "" ==> After(t) == "" && p.digits != ""
    ensures p.sep == ":" && After(t) != "" ==> After(t)[0] != ':'
    ensures t[0] != ':' ==> p.digits != ""
  {
    var n := Run(t);
    p := Piece(t[..n], if n == |t| then "" else if GapAhead(t) then "::" else ":");
    if n < |t| {
      assert t == t[..n] + t[n..n + |p.sep|] + t[n + |p.sep|..];
      assert t[n..n + |p.sep|] == p.sep;
    }
  }

  /** What one turn of the loop has read. */
  lemma ScanHead(t: string, fs: seq<uint16>, gap: int) returns (p: Piece, rest: string, gs: seq<uint16>, g: int)
    requires t != "" && Scan(t, fs, gap).Good? && |fs| <= 8 && -1 <= gap
    ensures PieceOk(p) && t == p.digits + p.sep + rest && |rest| < |t|
    ensures |gs| == |fs| + 1 <= 8 && Scan(rest, gs, g).Good?
    ensures if p.sep == "::" then gap == -1 && g == |gs| else g == gap
    ensures p.sep == "" ==> rest == "" && p.digits != ""
    ensures p.sep == ":" && rest != "" ==> rest[0] != ':'
    ensures t[0] != ':' ==> p.digits != ""
  {
    p := HeadAndRest(t);
    gs, rest := fs + [FieldValue(t[..Run(t)])], After(t);
    g := if GapAhead(t) then |gs| else gap;
  }

  /** Whatever the scanner accepts has a spelling. */
  lemma {:induction false} ScanSound(t: string, fs: seq<uint16>, gap: int) returns (ps: seq<Piece>)
    requires Scan(t, fs, gap).Good? && |fs| <= 8 && -1 <= gap
    ensures Spelled(ps) && TextOf(ps) == t && |fs| + |ps| <= 8
    ensures Gaps(ps) <= 1 && (gap == -1 || Gaps(ps) == 0)
    ensures t == "" <==> ps == []
    ensures t != "" && t[0] != ':' ==> ps[0].digits != ""
    decreases |t|
  {
    if t == "" {
      return [];
    }
    var p, rest, gs, g := ScanHead(t, fs, gap);
    var qs := ScanSound(rest, gs, g);
    ConsPiece(p, qs);
    ps := [p] + qs;
  }

  /** stoip6 accepts exactly the spellings of at most 39 characters, and returns what they stand for. */
  lemma ParseMeansSpelled(t: string, f: seq<uint16>)
    ensures Parse(t) == Some(f) <==> |t| <= 39 && exists ps: seq<Piece> :: Spells(ps, t, f)
  {
    if Parse(t) == Some(f) {
      var ps := ScanSound(t, [], -1);
      ScanComplete(ps, [], -1);
      assert [] + Values(ps) == Values(ps);
      assert Spells(ps, t, f);
    }
    if |t| <= 39 && exists ps: seq<Piece> :: Spells(ps, t, f) {
      var ps: seq<Piece> :| Spells(ps, t, f);
      ScanComplete(ps, [], -1);
      assert [] + Values(ps) == Values(ps);
    }
  }

  // ---------- upper and lower case ----------

  lemma LowerRun(t: string)
    ensures Run(Lower(t)) == Run(t)
  {
    var n := Run(t);
    forall i | 0 <= i < |t|
      ensures Lower(t)[i] == ':' <==> t[i] == ':'
    {
      LowerDigit(t[i]);
    }
    RunIs(Lower(t), n);
  }

  /** What one turn of the loop looks at is the same in lower case. */
  lemma LowerTurn(t: string)
    requires t != ""
    ensures FieldAhead(Lower(t)) <==> FieldAhead(t)
    ensures GapAhead(Lower(t)) <==> GapAhead(t)
    ensures FieldAhead(t) ==> FieldValue(Lower(t)[..Run(Lower(t))]) == FieldValue(t[..Run(t)])
    ensures After(Lower(t)) == Lower(After(t)) && |After(t)| < |t|
  {
    var n, u := Run(t), Lower(t);
    LowerRun(t);
    assert u[..n] == Lower(t[..n]);
    LowerValue(t[..n]);
    if n + 1 < |t| {
      LowerDigit(t[n + 1]);
      assert u[n + 2..] == Lower(t[n + 2..]);
    }
    if n < |t| {
      assert u[n + 1..] == Lower(t[n + 1..]);
    }
  }

  lemma {:induction false} LowerScan(t: string, fs: seq<uint16>, gap: int)
    ensures Scan(Lower(t), fs, gap) == Scan(t, fs, gap)
    decreases |t|
  {
    if t != "" {
      LowerTurn(t);
      if FieldAhead(t) {
        var gs := fs + [FieldValue(t[..Run(t)])];
        LowerScan(After(t), gs, if GapAhead(t) then |gs| else gap);
      }
    }
  }

  /** Digits may be of either case: it makes no difference to any text, accepted or not. */
  lemma ParseIgnoresCase(t: string)
    ensures Parse(Lower(t)) == Parse(t)
  {
    LowerScan(t, [], -1);
  }
}
