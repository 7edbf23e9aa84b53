/** The text forms 1 and 2 of section 2.2 of RFC 4291: all of them are accepted by stoip6 and read as the
    address they stand for, and which accepted texts are none of them. */
module Ip6Forms {
  import opened Ip6Text
  import opened Ip6Grammar
  import opened Options

  // ---------- the forms ----------

  /** One to four hexadecimal digits. */
  predicate Group(d: string) { 1 <= |d| <= 4 && AllHex(d) }

  predicate Groups(ds: seq<string>) { forall i :: 0 <= i < |ds| ==> Group(ds[i]) }

  /** x:x:...:x */
  function JoinGroups(ds: seq<string>): string {
    if ds == [] then "" else if |ds| == 1 then ds[0] else ds[0] + ":" + JoinGroups(ds[1..])
  }

  function GroupValues(ds: seq<string>): (fs: seq<uint16>)
    requires Groups(ds)
    ensures |fs| == |ds|
  {
    seq(|ds|, i requires 0 <= i < |ds| => FieldValue(ds[i]))
  }

  /** Eight groups, or "::" for one or more groups of zeros. */
  datatype Form = Full(groups: seq<string>) | Short(left: seq<string>, right: seq<string>)

  predicate FormOk(form: Form) {
    match form
    case Full(gs) => |gs| == 8 && Groups(gs)
    case Short(l, r) => |l| + |r| <= 7 && Groups(l) && Groups(r)
  }

  function FormText(form: Form): string {
    match form
    case Full(gs) => JoinGroups(gs)
    case Short(l, r) => JoinGroups(l) + "::" + JoinGroups(r)
  }

  function FormValue(form: Form): (f: seq<uint16>)
    requires FormOk(form)
    ensures |f| == 8
  {
    match form
    case Full(gs) => GroupValues(gs)
    case Short(l, r) => GroupValues(l) + Zeros(8 - |l| - |r|) + GroupValues(r)
  }

  /** A text of one of the two forms. */
  ghost predicate WellWritten(t: string) {
    exists form :: FormOk(form) && FormText(form) == t
  }

  // ---------- every form is spelled ----------

  /** The spelling of groups: colons between them, `sep` after the last, then `rest`. */
  function Chain(ds: seq<string>, sep: string, rest: seq<Piece>): seq<Piece> {
    if ds == [] then rest
    else [Piece(ds[0], if |ds| == 1 then sep else ":")] + Chain(ds[1..], sep, rest)
  }

  /** One more group, or empty field, in front of a spelling. */
  lemma ConsGroup(d: string, sep: string, qs: seq<Piece>)
    requires Spelled(qs) && |d| <= 4 && AllHex(d) && (sep == "" ==> d != "")
    requires if sep == "" then qs == [] else sep == "::" || (sep == ":" && (qs == [] || qs[0].digits != ""))
    ensures var ps := [Piece(d, sep)] + qs;
            Spelled(ps) && TextOf(ps) == d + sep + TextOf(qs) && Values(ps) == [FieldValue(d)] + Values(qs) &&
            Gaps(ps) == (if sep == "::" then 1 else 0) + Gaps(qs) &&
            (Gaps(qs) == 0 ==> GapOf(ps) == if sep == "::" then 1 else -1) &&
            (Gaps(qs) > 0 && sep != "::" ==> GapOf(ps) == 1 + GapOf(qs))
  {
    var ps := [Piece(d, sep)] + qs;
    assert ps[1..] == qs;
  }

  lemma Regroup(h: string, j: string, sep: string, t: string)
    ensures h + ":" + (j + sep + t) == h + ":" + j + sep + t
  {
  }

  lemma ValuesCons(ds: seq<string>, fs: seq<uint16>)
    requires ds != [] && Groups(ds)
    ensures Groups(ds[1..]) && GroupValues(ds) + fs == [FieldValue(ds[0])] + (GroupValues(ds[1..]) + fs)
  {
    assert GroupValues(ds) == [FieldValue(ds[0])] + GroupValues(ds[1..]);
  }

  /** What a chain spells: its groups, the "::" behind them if that is the separator, and the rest. */
  lemma {:induction false} ChainSpells(ds: seq<string>, sep: string, rest: seq<Piece>)
    requires ds != [] && Groups(ds)
    requires Spelled(rest) && Gaps(rest) == 0 && (sep == "::" || (sep in {"", ":"} && rest == []))
    ensures var ps := Chain(ds, sep, rest);
            Spelled(ps) && TextOf(ps) == JoinGroups(ds) + sep + TextOf(rest) &&
            Values(ps) == GroupValues(ds) + Values(rest) &&
            ps != [] && ps[0].digits != "" && Gaps(ps) == (if sep == "::" then 1 else 0) &&
            GapOf(ps) == (if sep == "::" then |ds| else -1)
    decreases |ds|
  {
    ValuesCons(ds, Values(rest));
    if |ds| == 1 {
      ConsGroup(ds[0], sep, rest);
      assert GroupValues(ds[1..]) + Values(rest) == Values(rest);
    } else {
      ChainSpells(ds[1..], sep, rest);
      var qs := Chain(ds[1..], sep, rest);
      ConsGroup(ds[0], ":", qs);
      Regroup(ds[0], JoinGroups(ds[1..]), sep, TextOf(rest));
    }
  }

  /** What follows the "::" spells the groups there. */
  lemma TailSpells(ds: seq<string>)
    requires Groups(ds)
    ensures var tail := Chain(ds, "", []);
            Spelled(tail) && TextOf(tail) == JoinGroups(ds) && Values(tail) == GroupValues(ds) && Gaps(tail) == 0
  {
    if ds == [] {
      assert GroupValues([]) == [];
    } else {
      ChainSpells(ds, "", []);
      assert GroupValues(ds) + [] == GroupValues(ds) && JoinGroups(ds) + "" + "" == JoinGroups(ds);
    }
  }

  function SpellingOf(form: Form): seq<Piece> {
    match form
    case Full(gs) => Chain(gs, "", [])
    case Short(l, r) =>
      if l == [] then [Piece("", "::")] + Chain(r, "", []) else Chain(l, "::", Chain(r, "", []))
  }

  lemma LeadingGapSpells(r: seq<string>)
    requires |r| <= 7 && Groups(r)
    ensures Spells(SpellingOf(Short([], r)), FormText(Short([], r)), FormValue(Short([], r)))
  {
    var tail := Chain(r, "", []);
    TailSpells(r);
    ConsGroup("", "::", tail);
    assert "" + "::" + JoinGroups(r) == JoinGroups([]) + "::" + JoinGroups(r);
    var vs := [0] + GroupValues(r);
    assert FieldValue("") == 0 && vs[..1] == [0] && vs[1..] == GroupValues(r);
    assert GroupValues([]) == [] && [] + Zeros(8 - |r|) == Zeros(8 - |r|);
    assert [0] + Zeros(8 - |vs|) == Zeros(8 - |r|);
  }

  lemma InnerGapSpells(l: seq<string>, r: seq<string>)
    requires l != [] && |l| + |r| <= 7 && Groups(l) && Groups(r)
    ensures Spells(SpellingOf(Short(l, r)), FormText(Short(l, r)), FormValue(Short(l, r)))
  {
    TailSpells(r);
    ChainSpells(l, "::", Chain(r, "", []));
    var vs := GroupValues(l) + GroupValues(r);
    assert vs[..|l|] == GroupValues(l) && vs[|l|..] == GroupValues(r);
  }

  lemma FormSpells(form: Form)
    requires FormOk(form)
    ensures Spells(SpellingOf(form), FormText(form), FormValue(form))
  {
    match form
    case Full(gs) =>
      TailSpells(gs);
    case Short(l, r) =>
      if l == [] {
        LeadingGapSpells(r);
      } else {
        InnerGapSpells(l, r);
      }
  }

  lemma {:induction false} GroupsLength(ds: seq<string>)
    requires Groups(ds)
    ensures |JoinGroups(ds)| <= if ds == [] then 0 else 5 * |ds| - 1
  {
    if ds != [] {
      GroupsLength(ds[1..]);
    }
  }

  /** The limit of 39 characters refuses no text of these forms. */
  lemma FormLength(form: Form)
    requires FormOk(form)
    ensures |FormText(form)| <= 39
  {
    match form
    case Full(gs) =>
      GroupsLength(gs);
    case Short(l, r) =>
      GroupsLength(l);
      GroupsLength(r);
  }

  /** Every text of these forms is accepted, with its address. */
  lemma FormAccepted(form: Form)
    requires FormOk(form)
    ensures Parse(FormText(form)) == Some(FormValue(form))
  {
    FormSpells(form);
    FormLength(form);
    ParseMeansSpelled(FormText(form), FormValue(form));
  }

  // ---------- which accepted texts are of no form ----------

  /** Two colons side by side at i. */
  predicate DoubleColonAt(t: string, i: int) {
    0 <= i && i + 1 < |t| && t[i] == ':' && t[i + 1] == ':'
  }

  /** The text starts with one colon that is not part of "::". */
  predicate LoneStart(t: string) {
    t != "" && t[0] == ':' && !DoubleColonAt(t, 0)
  }

  predicate LoneEnd(t: string) {
    t != "" && t[|t| - 1] == ':' && !DoubleColonAt(t, |t| - 2)
  }

  /** ":::" */
  ghost predicate ThreeColons(t: string) {
    exists i {:trigger DoubleColonAt(t, i)} :: DoubleColonAt(t, i) && DoubleColonAt(t, i + 1)
  }

  /** The number of groups, that is, of characters at the end of one. */
  function GroupCount(t: string): nat {
    if t == "" then 0
    else (if t[0] != ':' && (|t| == 1 || t[1] == ':') then 1 else 0) + GroupCount(t[1..])
  }

  /** "::" beside eight groups or more stands for no zeros. */
  ghost predicate IdleGap(t: string) {
    (exists i :: DoubleColonAt(t, i)) && GroupCount(t) >= 8
  }

  lemma {:induction false} GroupCountColon(a: string, b: string)
    ensures GroupCount(a + ":" + b) == GroupCount(a) + GroupCount(b)
  {
    var t := a + ":" + b;
    if a == "" {
      assert t[1..] == b;
    } else {
      assert t[1..] == a[1..] + ":" + b;
      GroupCountColon(a[1..], b);
      assert |a| == 1 ==> t[1] == ':';
      assert |a| > 1 ==> t[1] == a[1];
    }
  }

  lemma GroupCountGap(a: string, b: string)
    ensures GroupCount(a + "::" + b) == GroupCount(a) + GroupCount(b)
  {
    assert a + "::" + b == a + ":" + ("" + ":" + b);
    GroupCountColon(a, "" + ":" + b);
    GroupCountColon("", b);
  }

  lemma {:induction false} GroupCountOne(d: string)
    requires d != "" && AllHex(d)
    ensures GroupCount(d) == 1
  {
    if |d| > 1 {
      assert HexDigit(d[0]) && HexDigit(d[1]);
      GroupCountOne(d[1..]);
    } else {
      assert HexDigit(d[0]) && d[1..] == "";
    }
  }

  ghost predicate NoDoubles(t: string) {
    forall i :: !DoubleColonAt(t, i)
  }

  lemma NoDoublesColon(d: string, rest: string)
    requires AllHex(d) && rest != "" && rest[0] != ':' && NoDoubles(rest)
    ensures NoDoubles(d + ":" + rest)
  {
    var t := d + ":" + rest;
    forall i
      ensures !DoubleColonAt(t, i)
    {
      assert !DoubleColonAt(rest, i - |d| - 1);
      assert 0 <= i < |d| ==> HexDigit(d[i]);
    }
  }

  /** Joined groups start and end with a digit, have no "::", and are as many as there are. */
  lemma {:induction false} JoinFacts(ds: seq<string>)
    requires ds != [] && Groups(ds)
    ensures var t := JoinGroups(ds);
            t != "" && HexDigit(t[0]) && HexDigit(t[|t| - 1]) && NoDoubles(t) && GroupCount(t) == |ds|
  {
    var d := ds[0];
    GroupCountOne(d);
    assert HexDigit(d[0]) && HexDigit(d[|d| - 1]);
    if |ds| == 1 {
      forall i
        ensures !DoubleColonAt(d, i)
      {
        assert 0 <= i < |d| ==> HexDigit(d[i]);
      }
    } else {
      var rest := JoinGroups(ds[1..]);
      JoinFacts(ds[1..]);
      NoDoublesColon(d, rest);
      GroupCountColon(d, rest);
    }
  }

  /** Between two such texts, "::" is the only one. */
  lemma OnlyDouble(a: string, b: string, i: int)
    requires NoDoubles(a) && NoDoubles(b)
    requires (a != "" ==> a[|a| - 1] != ':') && (b != "" ==> b[0] != ':')
    requires DoubleColonAt(a + "::" + b, i)
    ensures i == |a|
  {
    assert !DoubleColonAt(a, i) && !DoubleColonAt(b, i - |a| - 2);
  }

  lemma GroupsFacts(ds: seq<string>)
    requires Groups(ds)
    ensures var t := JoinGroups(ds);
            NoDoubles(t) && GroupCount(t) == |ds| && (t != "" ==> t[0] != ':' && t[|t| - 1] != ':')
  {
    if ds != [] {
      JoinFacts(ds);
    }
  }

  /** What a text with a colon out of place, or with an idle "::", looks like to its reader. */
  ghost predicate Odd(t: string) {
    LoneStart(t) || LoneEnd(t) || ThreeColons(t) || IdleGap(t)
  }

  lemma ShortNotOdd(l: seq<string>, r: seq<string>)
    requires |l| + |r| <= 7 && Groups(l) && Groups(r)
    ensures !Odd(JoinGroups(l) + "::" + JoinGroups(r))
  {
    var a, b := JoinGroups(l), JoinGroups(r);
    var t := a + "::" + b;
    GroupsFacts(l);
    GroupsFacts(r);
    GroupCountGap(a, b);
    assert DoubleColonAt(t, |a|);
    forall i | DoubleColonAt(t, i)
      ensures i == |a|
    {
      OnlyDouble(a, b, i);
    }
    assert a != "" ==> t[0] == a[0];
    assert b != "" ==> t[|t| - 1] == b[|b| - 1];
  }

  lemma FormNotOdd(form: Form)
    requires FormOk(form)
    ensures !Odd(FormText(form))
  {
    match form
    case Full(gs) =>
      JoinFacts(gs);
    case Short(l, r) =>
      ShortNotOdd(l, r);
  }

  function DigitsOf(ps: seq<Piece>): (ds: seq<string>)
    ensures |ds| == |ps|
  {
    seq(|ps|, i requires 0 <= i < |ps| => ps[i].digits)
  }

  /** A colon out of place in the rest is out of place in the whole. */
  lemma ThreeColonsBehind(a: string, b: string)
    requires ThreeColons(b)
    ensures ThreeColons(a + b)
  {
    var i :| DoubleColonAt(b, i) && DoubleColonAt(b, i + 1);
    assert DoubleColonAt(a + b, |a| + i) && DoubleColonAt(a + b, |a| + i + 1);
  }

  /** Only the first field of a spelling can be empty without ":::". */
  lemma {:induction false} InnerDigits(ps: seq<Piece>)
    requires Spelled(ps) && !ThreeColons(TextOf(ps))
    ensures forall i :: 1 <= i < |ps| ==> ps[i].digits != ""
  {
    if |ps| > 1 {
      var p, qs := ps[0], ps[1..];
      var t := TextOf(ps);
      if ThreeColons(TextOf(qs)) {
        ThreeColonsBehind(p.digits + p.sep, TextOf(qs));
      }
      InnerDigits(qs);
      if qs[0].digits == "" {
        assert PieceOk(qs[0]) && TextOf(qs) == qs[0].sep + TextOf(qs[1..]);
        assert qs[0].sep == ":" || qs[0].sep == "::";
        assert p.sep == "::" && TextOf(qs)[0] == ':';
        assert DoubleColonAt(t, |p.digits|) && DoubleColonAt(t, |p.digits| + 1);
      }
      assert forall i :: 1 <= i < |ps| ==> ps[i] == qs[i - 1];
    }
  }

  lemma LoneEndBehind(a: string, b: string)
    requires |b| >= 2 && LoneEnd(b)
    ensures LoneEnd(a + b)
  {
    var t := a + b;
    assert t[|t| - 1] == b[|b| - 1] && t[|t| - 2] == b[|b| - 2];
  }

  lemma DigitsThenColon(d: string)
    requires d != "" && AllHex(d)
    ensures LoneEnd(d + ":")
  {
    var t := d + ":";
    assert t[|t| - 2] == d[|d| - 1] && HexDigit(d[|d| - 1]);
  }

  /** A text ends with one colon if its last field has digits and that separator. */
  lemma {:induction false} LastSeparator(ps: seq<Piece>)
    requires ps != [] && Spelled(ps) && ps[|ps| - 1].digits != "" && ps[|ps| - 1].sep == ":"
    ensures |TextOf(ps)| >= 2 && LoneEnd(TextOf(ps))
  {
    var p, u := ps[0], TextOf(ps[1..]);
    if |ps| == 1 {
      DigitsThenColon(p.digits);
      assert u == "" && p.digits + ":" + "" == p.digits + ":";
    } else {
      LastSeparator(ps[1..]);
      LoneEndBehind(p.digits + p.sep, u);
    }
  }

  /** Without "::" the text is its groups, joined. */
  lemma {:induction false} PlainText(ps: seq<Piece>)
    requires ps != [] && Spelled(ps) && Gaps(ps) == 0 && ps[|ps| - 1].sep == ""
    requires forall i :: 0 <= i < |ps| ==> ps[i].digits != ""
    ensures Groups(DigitsOf(ps)) && TextOf(ps) == JoinGroups(DigitsOf(ps))
  {
    if |ps| == 1 {
      assert ps[1..] == [] && TextOf(ps) == ps[0].digits + "" + "";
    } else {
      PlainText(ps[1..]);
      assert DigitsOf(ps)[1..] == DigitsOf(ps[1..]);
    }
  }

  /** The pieces behind the "::" are its right groups. */
  lemma RightText(ps: seq<Piece>)
    requires Spelled(ps) && Gaps(ps) == 0 && (ps != [] ==> ps[|ps| - 1].sep == "")
    requires forall i :: 0 <= i < |ps| ==> ps[i].digits != ""
    ensures Groups(DigitsOf(ps)) && TextOf(ps) == JoinGroups(DigitsOf(ps))
  {
    if ps != [] {
      PlainText(ps);
    }
  }

  lemma DigitsCut(ps: seq<Piece>, g: nat)
    requires 1 <= g <= |ps|
    ensures ps[1..][g - 1..] == ps[g..] && DigitsOf(ps[..g]) == [ps[0].digits] + DigitsOf(ps[1..][..g - 1])
  {
  }

  lemma JoinCons(d: string, l: seq<string>)
    requires Group(d) && Groups(l) && l != []
    ensures Groups([d] + l) && JoinGroups([d] + l) == d + ":" + JoinGroups(l)
  {
    assert ([d] + l)[1..] == l;
  }

  /** With one "::" the text is the groups before it, "::" and the groups behind. */
  lemma {:induction false} GapText(ps: seq<Piece>)
    requires Spelled(ps) && Gaps(ps) == 1 && ps[|ps| - 1].sep != ":"
    requires forall i :: 0 <= i < |ps| ==> ps[i].digits != ""
    ensures var g := GapOf(ps);
            var l, r := DigitsOf(ps[..g]), DigitsOf(ps[g..]);
            Groups(l) && Groups(r) && TextOf(ps) == JoinGroups(l) + "::" + JoinGroups(r)
  {
    var p, qs, g := ps[0], ps[1..], GapOf(ps);
    if p.sep == "::" {
      LastOfRest(ps);
      RightText(qs);
      assert ps[..1] == [p] && DigitsOf([p]) == [p.digits];
    } else {
      GapText(qs);
      var l, r := DigitsOf(qs[..g - 1]), DigitsOf(qs[g - 1..]);
      DigitsCut(ps, g);
      JoinCons(p.digits, l);
      Regroup(p.digits, JoinGroups(l), "::", JoinGroups(r));
    }
  }

  /** Behind the only "::" there is none, and the last piece has no separator. */
  lemma LastOfRest(ps: seq<Piece>)
    requires ps != [] && Spelled(ps) && Gaps(ps) == 1 && ps[0].sep == "::" && (|ps| > 1 ==> ps[|ps| - 1].sep != ":")
    ensures Spelled(ps[1..]) && Gaps(ps[1..]) == 0 && (|ps| > 1 ==> ps[|ps| - 1].sep == "")
  {
    if |ps| > 1 {
      NoGapPiece(ps[1..], |ps| - 2);
    }
  }

  lemma {:induction false} NoGapPiece(ps: seq<Piece>, i: nat)
    requires Gaps(ps) == 0 && Spelled(ps) && i < |ps|
    ensures ps[i].sep != "::" && PieceOk(ps[i])
  {
    if i > 0 {
      NoGapPiece(ps[1..], i - 1);
    }
  }

  /** An accepted text is of one of the forms unless it starts or ends with a single colon, has three colons
      in a row, or has "::" beside eight groups. */
  lemma WellWrittenIff(t: string)
    requires Parse(t).Some?
    ensures WellWritten(t) <==> !Odd(t)
  {
    if WellWritten(t) {
      var form :| FormOk(form) && FormText(form) == t;
      FormNotOdd(form);
    }
    if !Odd(t) {
      var f := Parse(t).value;
      ParseMeansSpelled(t, f);
      var ps: seq<Piece> :| Spells(ps, t, f);
      var form := FormOf(ps, t, f);
    }
  }

  lemma FirstDigits(ps: seq<Piece>)
    requires ps != [] && Spelled(ps) && ps[0].digits == "" && ps[0].sep != "::"
    ensures LoneStart(TextOf(ps))
  {
    var t := TextOf(ps);
    assert ps[0].sep == ":" && t[0] == ':' && t[1..] == TextOf(ps[1..]);
    if |t| > 1 {
      AfterColon(ps);
      assert t[1] == TextOf(ps[1..])[0];
    }
  }

  lemma FormOf(ps: seq<Piece>, t: string, f: seq<uint16>) returns (form: Form)
    requires Spells(ps, t, f) && !Odd(t)
    ensures FormOk(form) && FormText(form) == t
  {
    assert ps != [];
    InnerDigits(ps);
    var last := ps[|ps| - 1];
    if last.digits != "" && last.sep == ":" {
      LastSeparator(ps);
    }
    if ps[0].digits == "" && ps[0].sep != "::" {
      FirstDigits(ps);
    }
    if Gaps(ps) == 0 {
      NoGapPiece(ps, 0);
      NoGapPiece(ps, |ps| - 1);
      PlainText(ps);
      form := Full(DigitsOf(ps));
    } else if ps[0].digits == "" {
      LastOfRest(ps);
      RightText(ps[1..]);
      form := Short([], DigitsOf(ps[1..]));
    } else {
      GapText(ps);
      var g := GapOf(ps);
      form := Short(DigitsOf(ps[..g]), DigitsOf(ps[g..]));
      if |ps| == 8 {
        GroupsFacts(form.left);
        GroupsFacts(form.right);
        GroupCountGap(JoinGroups(form.left), JoinGroups(form.right));
        assert DoubleColonAt(t, |JoinGroups(form.left)|);
      }
    }
  }

  // ---------- such texts ----------

  /** An empty field behind "::". */
  lemma ThreeColonsAccepted()
    ensures Parse(":::") == Some(Zeros(8)) && ThreeColons(":::")
  {
    var ps := [Piece("", "::"), Piece("", ":")];
    assert ps[1..] == [Piece("", ":")] && ps[1..][1..] == [];
    assert Spelled(ps[1..]) && Spelled(ps);
    assert TextOf(ps[1..]) == ":" && TextOf(ps) == ":::";
    assert FieldValue("") == 0;
    assert Values(ps) == [0, 0];
    assert Values(ps)[..1] == [0] && Values(ps)[1..] == [0];
    assert [0] + Zeros(6) + [0] == Zeros(8);
    assert Spells(ps, ":::", Zeros(8));
    ParseMeansSpelled(":::", Zeros(8));
    assert DoubleColonAt(":::", 0) && DoubleColonAt(":::", 1);
  }

  /** A single colon behind eight groups, if the text is short enough. */
  lemma TrailingColonAccepted(gs: seq<string>)
    requires |gs| == 8 && Groups(gs)
    ensures var t := JoinGroups(gs) + ":";
            LoneEnd(t) && Parse(t) == if |t| <= 39 then Some(GroupValues(gs)) else None
  {
    var t, ps := JoinGroups(gs) + ":", Chain(gs, ":", []);
    JoinFacts(gs);
    ChainSpells(gs, ":", []);
    assert t == JoinGroups(gs) + ":" + "" && GroupValues(gs) + [] == GroupValues(gs);
    assert Spells(ps, t, GroupValues(gs));
    ParseOnly(t, GroupValues(gs));
  }

  /** A single colon in front of seven groups reads as a field of zeros. */
  lemma LeadingColonAccepted(gs: seq<string>)
    requires |gs| == 7 && Groups(gs)
    ensures var t := ":" + JoinGroups(gs);
            LoneStart(t) && Parse(t) == Some([0] + GroupValues(gs))
  {
    var t, qs := ":" + JoinGroups(gs), Chain(gs, "", []);
    JoinFacts(gs);
    ChainSpells(gs, "", []);
    TailSpells(gs);
    GroupsLength(gs);
    ConsGroup("", ":", qs);
    assert FieldValue("") == 0 && t == "" + ":" + JoinGroups(gs);
    assert Spells([Piece("", ":")] + qs, t, [0] + GroupValues(gs));
    ParseMeansSpelled(t, [0] + GroupValues(gs));
  }

  /** "::" between or behind eight groups stands for nothing, if the text is short enough. */
  lemma IdleGapAccepted(l: seq<string>, r: seq<string>)
    requires l != [] && |l| + |r| == 8 && Groups(l) && Groups(r)
    ensures var t := JoinGroups(l) + "::" + JoinGroups(r);
            IdleGap(t) && Parse(t) == if |t| <= 39 then Some(GroupValues(l) + GroupValues(r)) else None
  {
    var t, vs := JoinGroups(l) + "::" + JoinGroups(r), GroupValues(l) + GroupValues(r);
    var ps := Chain(l, "::", Chain(r, "", []));
    GroupsFacts(l);
    GroupsFacts(r);
    GroupCountGap(JoinGroups(l), JoinGroups(r));
    assert DoubleColonAt(t, |JoinGroups(l)|);
    TailSpells(r);
    ChainSpells(l, "::", Chain(r, "", []));
    assert vs[..|l|] + Zeros(0) + vs[|l|..] == vs;
    assert Spells(ps, t, vs);
    ParseOnly(t, vs);
  }

  lemma ParseOnly(t: string, f: seq<uint16>)
    requires exists ps: seq<Piece> :: Spells(ps, t, f)
    ensures Parse(t) == if |t| <= 39 then Some(f) else None
  {
    ParseMeansSpelled(t, f);
  }

  lemma {:induction false} WideLength(ds: seq<string>)
    requires ds != [] && forall i :: 0 <= i < |ds| ==> |ds[i]| == 4
    ensures |JoinGroups(ds)| == 5 * |ds| - 1
  {
    if |ds| > 1 {
      WideLength(ds[1..]);
    }
  }

  /** Of what is otherwise accepted, 40 and 41 characters are refused, which the header allows. */
  lemma WideTexts(gs: seq<string>)
    requires |gs| == 8 && Groups(gs) && forall i :: 0 <= i < 8 ==> |gs[i]| == 4
    ensures var t := JoinGroups(gs);
            && |t| == 39 && Parse(t) == Some(GroupValues(gs))
            && |t + ":"| == 40 && Parse(t + ":") == None
            && |t + "::"| == 41 && Parse(t + "::") == None
  {
    var t := JoinGroups(gs);
    WideLength(gs);
    FormAccepted(Full(gs));
    TrailingColonAccepted(gs);
    IdleGapAccepted(gs, []);
    assert t + "::" + "" == t + "::";
  }
}
