/** Declarations of wheels as syntax: names, versions as numbers, specifiers with
    any blanks. Exactly what `resolve_requirement` reads of them, and that it
    accepts nothing else. */
module Declarations {
  import opened Text
  import opened Versions
  import opened VersionBounds

  // ----- versions as numbers -----

  function Digit(d: nat): char
    requires d < 10
  {
    "0123456789"[d]
  }

  /** The decimal numeral of a number. */
  function Decimal(n: nat): (t: string)
    ensures t != ""
  {
    if n < 10 then [Digit(n)] else Decimal(n / 10) + [Digit(n % 10)]
  }

  function Zeros(k: nat): (t: string)
    ensures |t| == k && forall i :: 0 <= i < k ==> t[i] == '0'
  {
    seq(k, i => '0')
  }

  /** A number as written, perhaps with zeros in front. */
  datatype Numeral = Numeral(zeros: nat, value: nat)

  function NumeralText(n: Numeral): string
  {
    Zeros(n.zeros) + Decimal(n.value)
  }

  function Dotted(ns: seq<Numeral>): string
    requires ns != []
  {
    if |ns| == 1 then NumeralText(ns[0]) else NumeralText(ns[0]) + "." + Dotted(ns[1..])
  }

  function Values(ns: seq<Numeral>): Version
  {
    if ns == [] then [] else [ns[0].value] + Values(ns[1..])
  }

  lemma DigitIs(d: nat)
    requires d < 10
    ensures '0' <= Digit(d) <= '9' && (Digit(d) - '0') as int == d
  {}

  lemma {:induction false} ZerosCountNothing(k: nat)
    ensures Number(Zeros(k)) == 0
    decreases k
  {
    if k > 0 {
      assert Zeros(k)[..k - 1] == Zeros(k - 1);
      ZerosCountNothing(k - 1);
    }
  }

  lemma AppendDigit(t: string, d: nat)
    requires (forall i :: 0 <= i < |t| ==> '0' <= t[i] <= '9') && d < 10
    ensures Digits(t + [Digit(d)]) && Number(t + [Digit(d)]) == 10 * Number(t) + d
  {
    DigitIs(d);
    var u := t + [Digit(d)];
    assert u[..|u| - 1] == t;
  }

  lemma {:induction false} NumeralIsRead(zeros: nat, n: nat)
    ensures Digits(Zeros(zeros) + Decimal(n)) && Number(Zeros(zeros) + Decimal(n)) == n
    decreases n
  {
    if n < 10 {
      ZerosCountNothing(zeros);
      AppendDigit(Zeros(zeros), n);
    } else {
      NumeralIsRead(zeros, n / 10);
      AppendDigit(Zeros(zeros) + Decimal(n / 10), n % 10);
      Assoc(Zeros(zeros), Decimal(n / 10), [Digit(n % 10)]);
    }
  }

  /** Every text of digits is a numeral. */
  lemma {:induction false} DigitsAreNumeral(t: string) returns (n: Numeral)
    requires Digits(t)
    ensures NumeralText(n) == t && n.value == Number(t)
    decreases |t|
  {
    var m := |t| - 1;
    var d := (t[m] - '0') as int;
    DigitIs(d);
    assert t == t[..m] + [Digit(d)];
    if m == 0 {
      n := Numeral(0, d);
      assert Zeros(0) + Decimal(d) == t;
    } else {
      var front := DigitsAreNumeral(t[..m]);
      n := AppendToNumeral(front, d);
    }
    NumeralIsRead(n.zeros, n.value);
  }

  lemma AppendToNumeral(front: Numeral, d: nat) returns (n: Numeral)
    requires d < 10
    ensures NumeralText(n) == NumeralText(front) + [Digit(d)]
  {
    if front.value == 0 {
      n := Numeral(front.zeros + 1, d);
      assert Zeros(front.zeros) + [Digit(0)] == Zeros(front.zeros + 1);
    } else {
      n := Numeral(front.zeros, 10 * front.value + d);
      assert Decimal(n.value) == Decimal(front.value) + [Digit(d)];
      Assoc(Zeros(front.zeros), Decimal(front.value), [Digit(d)]);
    }
  }

  lemma {:induction false} SplitOnFirst(u: string, c: char, t: string)
    requires c !in u
    ensures SplitOn(u + [c] + t, c) == [u] + SplitOn(t, c)
    decreases |u|
  {
    var all := u + [c] + t;
    if u == "" {
      assert all[1..] == t;
    } else {
      assert u[0] in u;
      assert all[1..] == u[1..] + [c] + t;
      SplitOnFirst(u[1..], c, t);
      assert [u[0]] + u[1..] == u;
    }
  }

  lemma NumeralHasNoDot(n: Numeral)
    ensures '.' !in NumeralText(n) && Digits(NumeralText(n)) && Number(NumeralText(n)) == n.value
  {
    NumeralIsRead(n.zeros, n.value);
    assert forall i :: 0 <= i < |NumeralText(n)| ==> NumeralText(n)[i] != '.';
  }

  /** A version is read as its numbers, whatever zeros stand in front of them. */
  lemma {:induction false} VersionIsRead(ns: seq<Numeral>)
    requires ns != []
    ensures VersionKey(Dotted(ns)) == Some(Values(ns))
    decreases |ns|
  {
    var first := NumeralText(ns[0]);
    NumeralHasNoDot(ns[0]);
    if |ns| == 1 {
      SplitOnOne(first, '.');
      assert [first][1..] == [] && ns[1..] == [];
      assert Numbers([first]) == Some([ns[0].value] + []);
    } else {
      VersionIsRead(ns[1..]);
      SplitOnFirst(first, '.', Dotted(ns[1..]));
      var rest := SplitOn(Dotted(ns[1..]), '.');
      assert ([first] + rest)[1..] == rest;
    }
  }

  /** `c.join(parts)`. */
  function JoinWith(parts: seq<string>, c: char): string
    requires parts != []
  {
    if |parts| == 1 then parts[0] else parts[0] + [c] + JoinWith(parts[1..], c)
  }

  lemma {:induction false} JoinSplitOn(t: string, c: char)
    ensures JoinWith(SplitOn(t, c), c) == t && forall p :: p in SplitOn(t, c) ==> c !in p
    decreases |t|
  {
    if t != "" {
      var r := SplitOn(t[1..], c);
      JoinSplitOn(t[1..], c);
      assert t == [t[0]] + t[1..];
      if t[0] == c {
        assert ([""] + r)[1..] == r;
        assert "" + [c] + t[1..] == t;
      } else {
        JoinHead(t[0], r, c);
      }
    }
  }

  lemma JoinHead(h: char, r: seq<string>, c: char)
    requires r != []
    ensures JoinWith([[h] + r[0]] + r[1..], c) == [h] + JoinWith(r, c)
  {
    var s := [[h] + r[0]] + r[1..];
    assert s[1..] == r[1..];
    if |r| > 1 {
      assert s[0] + [c] + JoinWith(r[1..], c) == [h] + (r[0] + [c] + JoinWith(r[1..], c));
    }
  }

  lemma {:induction false} NumbersAreNumerals(parts: seq<string>) returns (ns: seq<Numeral>)
    requires parts != [] && Numbers(parts).Some?
    ensures ns != [] && |ns| == |parts| && Dotted(ns) == JoinWith(parts, '.') && Values(ns) == Numbers(parts).value
    decreases |parts|
  {
    var first := DigitsAreNumeral(parts[0]);
    if |parts| == 1 {
      ns := [first];
      assert parts[1..] == [] && ns[1..] == [];
    } else {
      var rest := NumbersAreNumerals(parts[1..]);
      ns := [first] + rest;
      assert ns[1..] == rest;
    }
  }

  /** Nothing else is read as a version. */
  lemma ReadIsVersion(t: string) returns (ns: seq<Numeral>)
    requires VersionKey(t).Some?
    ensures ns != [] && Dotted(ns) == t && Values(ns) == VersionKey(t).value
  {
    JoinSplitOn(t, '.');
    ns := NumbersAreNumerals(SplitOn(t, '.'));
  }

  // ----- one specifier -----

  /** What a specifier asks of the pinned version, in the zero-padded order. */
  ghost predicate Holds(op: Operator, pinned: Version, bound: Version)
  {
    match op
    case Equal => Same(pinned, bound)
    case AtLeast => !Precedes(pinned, bound)
    case AtMost => !Precedes(bound, pinned)
    case Above => Precedes(bound, pinned)
    case Below => Precedes(pinned, bound)
  }

  lemma HoldsExactly(op: Operator, pinned: Version, bound: Version)
    ensures Satisfies(op, CompareVersions(pinned, bound)) <==> Holds(op, pinned, bound)
  {
    CompareIsExact(pinned, bound);
  }

  /** A specifier as written. */
  datatype Spec = Spec(before: string, op: Operator, gap: string, version: string, after: string)

  predicate SpecOk(s: Spec)
  {
    && Blank(s.before) && Blank(s.gap) && Blank(s.after)
    && s.version != "" && forall i :: 0 <= i < |s.version| ==> '0' <= s.version[i] <= '9' || s.version[i] == '.'
  }

  function SpecText(s: Spec): string
  {
    Bound(s.before, s.op, s.gap, s.version, s.after)
  }

  lemma BlankStrips(b: string)
    requires Blank(b)
    ensures LStrip(b) == "" && RStrip(b) == ""
  {
    LStripBlank(b, "");
    RStripBlank("", b);
    assert b + "" == b && "" + b == b;
  }

  lemma SpecIsParsed(s: Spec)
    requires SpecOk(s)
    ensures ParseSegment(SpecText(s)) == Some((s.op, s.version))
  {
    BlankStrips(s.before);
    BlankStrips(s.after);
    StripBound(s.before, s.op, s.gap, s.version, s.after);
    StripBound("", s.op, s.gap, s.version, "");
    ParseWholeSegment(s.op, s.gap, s.version, "");
  }

  /** The pinned version passes a specifier exactly if the bound is a version and
      the two are in the order the operator names. */
  lemma SegmentExactly(s: Spec, pinned: Version)
    requires SpecOk(s)
    ensures CheckSegment(SpecText(s), pinned) == None
       <==> VersionKey(s.version).Some? && Holds(s.op, pinned, VersionKey(s.version).value)
    ensures CheckSegment(SpecText(s), pinned) == Some(BadVersion) <==> VersionKey(s.version).None?
  {
    SpecIsParsed(s);
    if VersionKey(s.version).Some? { HoldsExactly(s.op, pinned, VersionKey(s.version).value); }
  }

  lemma {:induction false} LStripParts(t: string) returns (b: string)
    ensures Blank(b) && t == b + LStrip(t)
    decreases |t|
  {
    b := "";
    if t != "" && IsSpace(t[0]) {
      var rest := LStripParts(t[1..]);
      b := [t[0]] + rest;
      assert t == [t[0]] + t[1..];
    }
  }

  lemma {:induction false} RStripParts(t: string) returns (a: string)
    ensures Blank(a) && t == RStrip(t) + a
    decreases |t|
  {
    a := "";
    if t != "" && IsSpace(t[|t| - 1]) {
      var n := |t| - 1;
      var rest := RStripParts(t[..n]);
      a := rest + [t[n]];
      assert t == t[..n] + [t[n]];
    }
  }

  /** Every text is its trimmed form between blanks. */
  lemma StripParts(t: string) returns (b: string, a: string)
    ensures Blank(b) && Blank(a) && t == b + (Strip(t) + a)
  {
    b := LStripParts(t);
    a := RStripParts(LStrip(t));
  }

  lemma OperatorIsWritten(t: string)
    requires OperatorOf(t).Some?
    ensures var (op, n) := OperatorOf(t).value; n == |OperatorText(op)| && t == OperatorText(op) + t[n..]
  {}

  /** What parses is a specifier. */
  lemma ParsedIsSpec(segment: string) returns (s: Spec)
    requires ParseSegment(segment).Some?
    ensures SpecOk(s) && SpecText(s) == segment && ParseSegment(segment) == Some((s.op, s.version))
  {
    var t := Strip(segment);
    var b, a := StripParts(segment);
    var (op, n) := OperatorOf(t).value;
    OperatorIsWritten(t);
    var gap, close := StripParts(t[n..]);
    s := Spec(b, op, gap, Strip(t[n..]), close + a);
    SpecGroups(b, OperatorText(op), gap, Strip(t[n..]), close, a);
  }

  lemma SpecGroups(b: string, o: string, gap: string, v: string, close: string, a: string)
    ensures b + (o + (gap + (v + (close + a)))) == b + (o + (gap + (v + close)) + a)
  {}

  // ----- several specifiers -----

  predicate SpecsOk(specs: seq<Spec>)
  {
    forall i :: 0 <= i < |specs| ==> SpecOk(specs[i])
  }

  function SpecTexts(specs: seq<Spec>): (texts: seq<string>)
    ensures |texts| == |specs| && forall i :: 0 <= i < |specs| ==> texts[i] == SpecText(specs[i])
  {
    seq(|specs|, i requires 0 <= i < |specs| => SpecText(specs[i]))
  }

  function SpecsText(specs: seq<Spec>): string
  {
    if specs == [] then "" else JoinWith(SpecTexts(specs), ',')
  }

  /** Characters of a specifier list. */
  predicate SpecChar(c: char)
  {
    IsSpace(c) || VersionChar(c) || c in "<>=" || c == ','
  }

  predicate SpecChars(t: string)
  {
    forall i :: 0 <= i < |t| ==> SpecChar(t[i])
  }

  lemma SpecCharsConcat(u: string, v: string)
    requires SpecChars(u) && SpecChars(v)
    ensures SpecChars(u + v)
  {}

  lemma SpecHasSpecChars(s: Spec)
    requires SpecOk(s)
    ensures SpecChars(SpecText(s)) && ',' !in SpecText(s) && SpecText(s) != ""
  {
    var o := OperatorText(s.op);
    assert SpecChars(s.before) && SpecChars(o) && SpecChars(s.gap) && SpecChars(s.version) && SpecChars(s.after);
    SpecCharsConcat(s.version, s.after);
    SpecCharsConcat(s.gap, s.version + s.after);
    SpecCharsConcat(o, s.gap + (s.version + s.after));
    SpecCharsConcat(s.before, o + (s.gap + (s.version + s.after)));
    assert ',' !in s.before && ',' !in o && ',' !in s.gap && ',' !in s.version && ',' !in s.after;
  }

  lemma {:induction false} JoinedIsSplit(parts: seq<string>, c: char)
    requires parts != [] && forall p :: p in parts ==> c !in p
    ensures SplitOn(JoinWith(parts, c), c) == parts
    decreases |parts|
  {
    if |parts| == 1 {
      SplitOnOne(parts[0], c);
    } else {
      SplitOnFirst(parts[0], c, JoinWith(parts[1..], c));
      JoinedIsSplit(parts[1..], c);
      assert parts == [parts[0]] + parts[1..];
    }
  }

  lemma SegmentsOfSpecs(specs: seq<Spec>)
    requires SpecsOk(specs)
    ensures Segments(SpecsText(specs)) == SpecTexts(specs)
  {
    if specs != [] {
      var texts := SpecTexts(specs);
      forall t | t in texts ensures ',' !in t && t != "" {
        var i :| 0 <= i < |texts| && texts[i] == t;
        SpecHasSpecChars(specs[i]);
      }
      JoinedIsSplit(texts, ',');
      assert texts[0] in texts;
      assert |SpecsText(specs)| > 0 by { if |texts| > 1 { assert SpecsText(specs) == texts[0] + [','] + JoinWith(texts[1..], ','); } }
    }
  }

  lemma {:induction false} JoinHasSpecChars(texts: seq<string>)
    requires texts != [] && forall i :: 0 <= i < |texts| ==> SpecChars(texts[i])
    ensures SpecChars(JoinWith(texts, ','))
    decreases |texts|
  {
    if |texts| > 1 {
      JoinHasSpecChars(texts[1..]);
      SpecCharsConcat(texts[0], [',']);
      SpecCharsConcat(texts[0] + [','], JoinWith(texts[1..], ','));
    }
  }

  /** All specifiers pass. */
  ghost predicate AllHold(specs: seq<Spec>, pinned: Version)
  {
    forall i :: 0 <= i < |specs| ==> VersionKey(specs[i].version).Some? && Holds(specs[i].op, pinned, VersionKey(specs[i].version).value)
  }

  lemma SegmentsExactly(specs: seq<Spec>, pinned: Version)
    requires SpecsOk(specs)
    ensures (forall t :: t in SpecTexts(specs) ==> CheckSegment(t, pinned) == None) <==> AllHold(specs, pinned)
  {
    hide CheckSegment;
    var texts := SpecTexts(specs);
    forall i | 0 <= i < |specs|
      ensures CheckSegment(texts[i], pinned) == None
         <==> VersionKey(specs[i].version).Some? && Holds(specs[i].op, pinned, VersionKey(specs[i].version).value)
    {
      SegmentExactly(specs[i], pinned);
    }
    if forall t :: t in texts ==> CheckSegment(t, pinned) == None {
      forall i | 0 <= i < |specs| ensures CheckSegment(texts[i], pinned) == None { assert texts[i] in texts; }
    }
  }

  // ----- the declaration -----

  /** `name specifiers`, the specifiers perhaps in parentheses. */
  datatype Declared = Declared(before: string, name: string, gap: string, parens: bool, open: string,
                               specs: seq<Spec>, close: string, after: string)

  function BodyText(d: Declared): string
  {
    if d.parens then "(" + (d.open + (SpecsText(d.specs) + (d.close + ")"))) else SpecsText(d.specs)
  }

  function DeclaredText(d: Declared): string
  {
    d.before + (d.name + (d.gap + (BodyText(d) + d.after)))
  }

  predicate NameText(t: string)
  {
    t != "" && forall i :: 0 <= i < |t| ==>
      'a' <= t[i] <= 'z' || 'A' <= t[i] <= 'Z' || '0' <= t[i] <= '9' || t[i] in "_.-"
  }

  predicate DeclaredOk(d: Declared)
  {
    && Blank(d.before) && NameText(d.name) && Blank(d.gap) && Blank(d.open) && SpecsOk(d.specs) && Blank(d.close) && Blank(d.after)
    && (d.specs != [] ==> d.specs[0].before == "" && d.specs[|d.specs| - 1].after == "")
    && (d.parens ==> d.specs != [])
  }

  /** The text of the specifiers starts with an operator and ends with a version. */
  lemma SpecsEnds(specs: seq<Spec>)
    requires SpecsOk(specs) && specs != [] && specs[0].before == "" && specs[|specs| - 1].after == ""
    ensures var t := SpecsText(specs); t != "" && t[0] in "<>=" && VersionChar(t[|t| - 1]) && SpecChars(t)
  {
    var texts := SpecTexts(specs);
    forall i | 0 <= i < |texts| ensures SpecChars(texts[i]) && texts[i] != "" { SpecHasSpecChars(specs[i]); }
    JoinHasSpecChars(texts);
    JoinEnds(texts);
    SpecFirst(specs[0]);
    SpecLast(specs[|specs| - 1]);
  }

  lemma {:induction false} JoinEnds(texts: seq<string>)
    requires texts != [] && forall i :: 0 <= i < |texts| ==> texts[i] != ""
    ensures var t, last := JoinWith(texts, ','), texts[|texts| - 1];
            t != "" && t[0] == texts[0][0] && t[|t| - 1] == last[|last| - 1]
    decreases |texts|
  {
    if |texts| > 1 {
      JoinEnds(texts[1..]);
      var rest := JoinWith(texts[1..], ',');
      assert JoinWith(texts, ',') == texts[0] + [','] + rest;
      EndOf(texts[0] + [','], rest);
    }
  }

  lemma SpecFirst(s: Spec)
    requires s.before == ""
    ensures SpecText(s) != "" && SpecText(s)[0] in "<>="
  {
    assert SpecText(s)[0] == OperatorText(s.op)[0];
  }

  lemma SpecLast(s: Spec)
    requires SpecOk(s) && s.after == ""
    ensures var t := SpecText(s); t != "" && VersionChar(t[|t| - 1])
  {
    var o := OperatorText(s.op);
    assert s.version + "" == s.version;
    EndOf(s.gap, s.version);
    EndOf(o, s.gap + s.version);
    EndOf(s.before, o + (s.gap + s.version));
  }

  lemma SpecCharsMiss(t: string)
    requires SpecChars(t)
    ensures ';' !in t && '[' !in t && '(' !in t && ')' !in t
  {}

  /** What a declaration's body looks like from outside. */
  lemma BodyEnds(d: Declared)
    requires DeclaredOk(d)
    ensures var b := BodyText(d);
            b != "" ==> !NameChar(b[0]) && !IsSpace(b[0]) && !IsSpace(b[|b| - 1])
    ensures ';' !in BodyText(d) && '[' !in BodyText(d)
  {
    if d.specs != [] {
      var t := SpecsText(d.specs);
      SpecsEnds(d.specs);
      SpecCharsMiss(t);
      EdgeChars(t[0], t[|t| - 1]);
      hide SpecsText, SpecOk, SpecsOk, NameText, Blank, SpecChars, VersionChar, NameChar, IsSpace;
      ParensStart();
      if d.parens { ParensEnd(d.open, t, d.close); }
    }
  }

  lemma EdgeChars(first: char, last: char)
    requires first in "<>=" && VersionChar(last)
    ensures !NameChar(first) && !IsSpace(first) && !IsSpace(last)
  {}

  lemma ParensStart()
    ensures !NameChar('(') && !IsSpace('(') && !IsSpace(')')
  {}

  lemma ParensEnd(open: string, t: string, close: string)
    requires Blank(open) && Blank(close) && ';' !in t && '[' !in t
    ensures var b := "(" + (open + (t + (close + ")")));
            |b| > 1 && b[0] == '(' && b[|b| - 1] == ')' && ';' !in b && '[' !in b && b[1..|b| - 1] == open + t + close
  {
    var b := "(" + (open + (t + (close + ")")));
    assert b == "(" + (open + t + close) + ")";
    assert ';' !in open && '[' !in open && ';' !in close && '[' !in close;
  }

  lemma SpecifiersInParens(open: string, t: string, close: string)
    requires Blank(open) && Blank(close) && t != "" && Trimmed(t) && SpecChars(t)
    ensures Specifiers("(" + (open + (t + (close + ")")))) == Ok(t)
  {
    SpecCharsMiss(t);
    ParensEnd(open, t, close);
    StripSurrounded(open, t, close);
  }

  lemma SpecifiersAlone(t: string)
    requires SpecChars(t)
    ensures Specifiers(t) == Ok(t)
  {
    SpecCharsMiss(t);
  }

  lemma SpecifiersOfBody(d: Declared)
    requires DeclaredOk(d)
    ensures Specifiers(BodyText(d)) == Ok(SpecsText(d.specs))
  {
    if d.specs == [] {
      SpecifiersAlone("");
    } else {
      SpecsEnds(d.specs);
      hide SpecsText, SpecOk, Specifiers;
      var t := SpecsText(d.specs);
      if d.parens { SpecifiersInParens(d.open, t, d.close); } else { SpecifiersAlone(t); }
    }
  }

  /** A name, a gap and a body, between blanks: what trimming leaves, and where the name ends. */
  lemma TrimDeclared(before: string, name: string, gap: string, body: string, after: string)
    requires Blank(before) && NameText(name) && Blank(gap) && Blank(after)
    requires body != "" ==> !NameChar(body[0]) && !IsSpace(body[0]) && !IsSpace(body[|body| - 1])
    ensures var t := Strip(before + (name + (gap + (body + after))));
            NameLen(t) == |name| && |name| <= |t| && t[..|name|] == name && Strip(t[|name|..]) == body
  {
    var whole := before + (name + (gap + (body + after)));
    if body == "" {
      assert whole == before + name + (gap + after);
      StripSurrounded(before, name, gap + after);
      NameThenOther(name, "");
      assert name + "" == name;
    } else {
      var t := name + (gap + body);
      assert whole == before + t + after;
      EndOf(gap, body);
      EndOf(name, gap + body);
      StripSurrounded(before, t, after);
      NameThenOther(name, gap + body);
      StripSurrounded(gap, body, "");
      assert gap + body + "" == gap + body;
    }
  }

  lemma {:induction false} NameThenOther(name: string, t: string)
    requires (forall i :: 0 <= i < |name| ==> NameChar(name[i])) && (t == "" || !NameChar(t[0]))
    ensures NameLen(name + t) == |name| && (name + t)[..|name|] == name && (name + t)[|name|..] == t
    decreases |name|
  {
    if name == "" {
      assert name + t == t;
    } else {
      assert (name + t)[1..] == name[1..] + t;
      NameThenOther(name[1..], t);
    }
  }

  lemma NoMarker(before: string, name: string, gap: string, body: string, after: string)
    requires Blank(before) && NameText(name) && Blank(gap) && ';' !in body && '[' !in body && Blank(after)
    ensures ';' !in before + (name + (gap + (body + after))) && '[' !in before + (name + (gap + (body + after)))
  {
    assert ';' !in before && ';' !in name && ';' !in gap && ';' !in after;
    assert '[' !in before && '[' !in name && '[' !in gap && '[' !in after;
  }

  /** Every declaration is read: its name, and the text of its specifiers. */
  lemma DeclaredIsParsed(d: Declared)
    requires DeclaredOk(d)
    ensures ParseRequirement(DeclaredText(d)) == Ok((Normalize(d.name), SpecsText(d.specs)))
  {
    BodyEnds(d);
    NoMarker(d.before, d.name, d.gap, BodyText(d), d.after);
    TrimDeclared(d.before, d.name, d.gap, BodyText(d), d.after);
    SpecifiersOfBody(d);
  }

  /** For every declaration: `ref` is accepted for it exactly if it is the only
      reference pinned under its normalized name, and its version is readable
      and stands to every bound as the operator says. */
  lemma AcceptsExactly(d: Declared, python: set<string>, ref: string)
    requires DeclaredOk(d)
    ensures var p := "pkg:pypi/" + Normalize(d.name) + "@";
            Accepts(DeclaredText(d), python, ref) <==>
              && ref in python && Starts(ref, p) && (forall r :: r in python && Starts(r, p) ==> r == ref)
              && VersionKey(ref[|p|..]).Some? && AllHold(d.specs, VersionKey(ref[|p|..]).value)
  {
    hide CheckSegment;
    var p := "pkg:pypi/" + Normalize(d.name) + "@";
    DeclaredIsParsed(d);
    SegmentsOfSpecs(d.specs);
    OnlyPinned(python, Normalize(d.name), ref);
    if Starts(ref, p) && VersionKey(ref[|p|..]).Some? { SegmentsExactly(d.specs, VersionKey(ref[|p|..]).value); }
  }

  lemma OnlyPinned(python: set<string>, name: string, ref: string)
    ensures var p := "pkg:pypi/" + name + "@";
            Pins(python, name) == {ref} <==>
              ref in python && Starts(ref, p) && forall r :: r in python && Starts(r, p) ==> r == ref
  {
    var p := "pkg:pypi/" + name + "@";
    var pins := Pins(python, name);
    forall r ensures r in pins <==> r in python && Starts(r, p) {}
    if ref in pins && forall r :: r in pins ==> r == ref { assert pins == {ref}; }
  }

  // ----- nothing else is accepted -----

  lemma StripIsTrimmed(t: string)
    ensures Trimmed(Strip(t))
  {
    var u := LStrip(t);
    LStripFirst(t);
    RStripLast(u);
    RStripIsPrefix(u);
  }

  lemma {:induction false} LStripFirst(t: string)
    ensures LStrip(t) != "" ==> !IsSpace(LStrip(t)[0])
    decreases |t|
  {
    if t != "" && IsSpace(t[0]) { LStripFirst(t[1..]); }
  }

  lemma {:induction false} RStripLast(t: string)
    ensures var r := RStrip(t); r != "" ==> !IsSpace(r[|r| - 1])
    decreases |t|
  {
    if t != "" && IsSpace(t[|t| - 1]) { RStripLast(t[..|t| - 1]); }
  }

  lemma {:induction false} ParsedAreSpecs(texts: seq<string>) returns (specs: seq<Spec>)
    requires forall t :: t in texts ==> ParseSegment(t).Some?
    ensures SpecsOk(specs) && SpecTexts(specs) == texts
    decreases |texts|
  {
    hide ParseSegment;
    if texts == [] {
      specs := [];
    } else {
      assert texts[0] in texts;
      var first := ParsedIsSpec(texts[0]);
      var rest := ParsedAreSpecs(texts[1..]);
      specs := [first] + rest;
      forall i | 0 <= i < |texts| ensures SpecTexts(specs)[i] == texts[i] && SpecOk(specs[i]) {
        if i > 0 { assert specs[i] == rest[i - 1] && SpecTexts(rest)[i - 1] == texts[1..][i - 1]; }
      }
    }
  }

  /** Trimmed text that splits into specifiers is a list of them, in normal form. */
  lemma InnerIsSpecs(inner: string) returns (specs: seq<Spec>)
    requires Trimmed(inner) && forall t :: t in Segments(inner) ==> ParseSegment(t).Some?
    ensures SpecsOk(specs) && SpecsText(specs) == inner && (specs == [] <==> inner == "")
    ensures specs != [] ==> specs[0].before == "" && specs[|specs| - 1].after == ""
  {
    hide ParseSegment;
    specs := ParsedAreSpecs(Segments(inner));
    if inner != "" {
      JoinSplitOn(inner, ',');
      var texts := SpecTexts(specs);
      var m := |specs| - 1;
      forall i | 0 <= i < |texts| ensures texts[i] != "" { SpecHasSpecChars(specs[i]); }
      JoinEnds(texts);
      SpecStart(specs[0]);
      SpecEnd(specs[m]);
    }
  }

  lemma FirstOfSpec(s: Spec)
    requires SpecOk(s)
    ensures SpecText(s) != "" && (s.before != "" ==> IsSpace(SpecText(s)[0]))
  {
    SpecHasSpecChars(s);
    assert s.before != "" ==> SpecText(s)[0] == s.before[0];
  }

  lemma SpecStart(s: Spec)
    requires SpecOk(s) && SpecText(s) != "" && !IsSpace(SpecText(s)[0])
    ensures s.before == ""
  {
    FirstOfSpec(s);
  }

  lemma SpecEnd(s: Spec)
    requires SpecOk(s) && SpecText(s) != "" && !IsSpace(SpecText(s)[|SpecText(s)| - 1])
    ensures s.after == ""
  {
    if s.after != "" {
      EndOf(s.version, s.after);
      EndOf(s.gap, s.version + s.after);
      EndOf(OperatorText(s.op), s.gap + (s.version + s.after));
      EndOf(s.before, OperatorText(s.op) + (s.gap + (s.version + s.after)));
    }
  }

  lemma TakeParens(rest: string)
    requires Specifiers(rest).Ok? && rest != "" && rest[0] == '('
    ensures |rest| > 1 && rest == "(" + (rest[1..|rest| - 1] + ")")
    ensures Specifiers(rest).value == Strip(rest[1..|rest| - 1]) != ""
  {}

  /** The specifier text, taken out of its parentheses. */
  lemma BodyIsRead(rest: string) returns (parens: bool, open: string, close: string)
    requires Specifiers(rest).Ok? && Trimmed(rest)
    ensures var inner := Specifiers(rest).value;
            && Trimmed(inner) && Blank(open) && Blank(close) && (parens ==> inner != "")
            && rest == if parens then "(" + (open + (inner + (close + ")"))) else inner
  {
    parens, open, close := false, "", "";
    if rest != "" && rest[0] == '(' {
      TakeParens(rest);
      hide Specifiers;
      var body := rest[1..|rest| - 1];
      parens := true;
      open, close := StripParts(body);
      StripIsTrimmed(body);
      Wrapped(open, Strip(body), close);
    }
  }

  lemma Wrapped(open: string, inner: string, close: string)
    ensures "(" + (open + (inner + close) + ")") == "(" + (open + (inner + (close + ")")))
  {}

  lemma NameLenIsName(t: string)
    requires NameLen(t) > 0
    ensures NameText(t[..NameLen(t)])
  {}

  lemma DeclaredGroups(b: string, name: string, gap: string, rest: string, close: string, a: string, text: string)
    requires text == name + (gap + (rest + close))
    ensures b + (text + a) == b + (name + (gap + (rest + (close + a))))
  {}

  lemma Reassembled(d: Declared, requirement: string, text: string, n: nat, rest: string, close: string, a: string)
    requires n <= |text| && d.name == text[..n] && text[n..] == d.gap + (rest + close)
    requires requirement == d.before + (text + a) && BodyText(d) == rest && d.after == close + a
    ensures DeclaredText(d) == requirement
  {
    assert text == text[..n] + text[n..];
    DeclaredGroups(d.before, text[..n], d.gap, rest, close, a, text);
  }

  lemma BlanksTogether(u: string, v: string)
    requires Blank(u) && Blank(v)
    ensures Blank(u + v)
  {}

  lemma ParseParts(requirement: string) returns (text: string, n: nat)
    requires ParseRequirement(requirement).Ok?
    ensures text == Strip(requirement) && n == NameLen(text) > 0
    ensures Specifiers(Strip(text[n..])) == Ok(ParseRequirement(requirement).value.1)
  {
    text := Strip(requirement);
    n := NameLen(text);
  }

  /** What parses, with readable specifiers, is a declaration. */
  lemma ParsedIsDeclared(requirement: string) returns (d: Declared)
    requires ParseRequirement(requirement).Ok?
    requires forall t :: t in Segments(ParseRequirement(requirement).value.1) ==> ParseSegment(t).Some?
    ensures DeclaredOk(d) && DeclaredText(d) == requirement
  {
    var text, n := ParseParts(requirement);
    hide ParseRequirement, ParseSegment, Specifiers, Strip, Segments, NameLen, NameText, SpecsOk, SpecsText;
    var b, a := StripParts(requirement);
    NameLenIsName(text);
    var gap, close := StripParts(text[n..]);
    var rest := Strip(text[n..]);
    StripIsTrimmed(text[n..]);
    var parens, open, shut := BodyIsRead(rest);
    var specs := InnerIsSpecs(Specifiers(rest).value);
    d := Declared(b, text[..n], gap, parens, open, specs, shut, close + a);
    BlanksTogether(close, a);
    hide Blank;
    Reassembled(d, requirement, text, n, rest, close, a);
  }

  /** Whatever is accepted is a declaration of this form. */
  lemma AcceptedIsDeclared(requirement: string, python: set<string>, ref: string) returns (d: Declared)
    requires Accepts(requirement, python, ref)
    ensures DeclaredOk(d) && DeclaredText(d) == requirement
  {
    var rest := ParseRequirement(requirement).value.1;
    forall t | t in Segments(rest) ensures ParseSegment(t).Some? {}
    d := ParsedIsDeclared(requirement);
  }

  // ----- names -----

  /** A stretch of letters and digits, or of separators. */
  datatype Run = Letters(text: string) | Separators(text: string)

  predicate RunOk(r: Run)
  {
    r.text != "" && forall i :: 0 <= i < |r.text| ==> NameChar(r.text[i]) && (r.Separators? <==> r.text[i] in "-_.")
  }

  /** Stretches of both kinds in turn. */
  predicate RunsOk(rs: seq<Run>)
  {
    (forall i :: 0 <= i < |rs| ==> RunOk(rs[i])) && forall i :: 0 <= i < |rs| - 1 ==> rs[i].Letters? != rs[i + 1].Letters?
  }

  function RunsText(rs: seq<Run>): string
  {
    if rs == [] then "" else rs[0].text + RunsText(rs[1..])
  }

  function Lowered(t: string): (r: string)
    ensures |r| == |t| && forall i :: 0 <= i < |t| ==> r[i] == Lower(t[i])
  {
    seq(|t|, i requires 0 <= i < |t| => Lower(t[i]))
  }

  /** Letters in lower case, one hyphen for every stretch of separators. */
  function RunsName(rs: seq<Run>): string
  {
    if rs == [] then "" else (if rs[0].Letters? then Lowered(rs[0].text) else "-") + RunsName(rs[1..])
  }

  /** `A` to `Z` become `a` to `z`. */
  lemma LowerIs(c: char)
    ensures if 'A' <= c <= 'Z' then Lower(c) as int == c as int + 32 else Lower(c) == c
  {
    assert 'a' as int == 'A' as int + 32;
  }

  lemma {:induction false} NormalizeLetters(u: string, t: string)
    requires forall i :: 0 <= i < |u| ==> u[i] !in "-_."
    ensures Normalize(u + t) == Lowered(u) + Normalize(t)
    decreases |u|
  {
    if u == "" {
      assert u + t == t && Lowered(u) + Normalize(t) == Normalize(t);
    } else {
      assert (u + t)[1..] == u[1..] + t;
      NormalizeLetters(u[1..], t);
      assert Lowered(u) == [Lower(u[0])] + Lowered(u[1..]);
    }
  }

  lemma {:induction false} NormalizeSeparators(u: string, t: string)
    requires u != "" && (forall i :: 0 <= i < |u| ==> u[i] in "-_.") && (t == "" || t[0] !in "-_.")
    ensures Normalize(u + t) == "-" + Normalize(t)
    decreases |u|
  {
    assert (u + t)[1..] == u[1..] + t;
    if |u| > 1 {
      assert (u + t)[1] == u[1];
      NormalizeSeparators(u[1..], t);
    } else {
      assert u[1..] + t == t;
      assert t != "" ==> (u + t)[1] == t[0];
    }
  }

  /** A name is normalized stretch by stretch. */
  lemma {:induction false} NormalizeIsByRuns(rs: seq<Run>)
    requires RunsOk(rs)
    ensures Normalize(RunsText(rs)) == RunsName(rs)
    decreases |rs|
  {
    if rs != [] {
      var rest := rs[1..];
      NormalizeIsByRuns(rest);
      if rest != [] {
        assert RunsText(rest)[0] == rest[0].text[0];
        assert RunOk(rs[1]) && rest[0] == rs[1];
      }
      if rs[0].Letters? {
        NormalizeLetters(rs[0].text, RunsText(rest));
      } else {
        NormalizeSeparators(rs[0].text, RunsText(rest));
      }
    }
  }

  /** Every name is made of stretches. */
  lemma {:induction false} NameHasRuns(t: string) returns (rs: seq<Run>)
    requires forall i :: 0 <= i < |t| ==> NameChar(t[i])
    ensures RunsOk(rs) && RunsText(rs) == t
    decreases |t|
  {
    rs := [];
    if t != "" {
      var more := NameHasRuns(t[1..]);
      assert t == [t[0]] + t[1..];
      rs := AddToRuns(t[0], more);
    }
  }

  lemma AddToRuns(c: char, rs: seq<Run>) returns (more: seq<Run>)
    requires NameChar(c) && RunsOk(rs)
    ensures RunsOk(more) && RunsText(more) == [c] + RunsText(rs)
  {
    var one := if c in "-_." then Separators([c]) else Letters([c]);
    if rs != [] && rs[0].Separators? == one.Separators? {
      var text := [c] + rs[0].text;
      var first := if one.Separators? then Separators(text) else Letters(text);
      var rest := rs[1..];
      assert RunOk(rs[0]) && RunOk(first);
      more := [first] + rest;
      assert forall i :: 1 <= i < |more| ==> more[i] == rs[i];
      assert more[1..] == rest && first.text == text;
      Assoc([c], rs[0].text, RunsText(rest));
      hide RunOk;
    } else {
      more := [one] + rs;
      assert forall i :: 1 <= i < |more| ==> more[i] == rs[i - 1];
      assert more[1..] == rs;
    }
  }
}
