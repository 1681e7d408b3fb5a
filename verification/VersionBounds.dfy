/** Writing `.0` after a bound of a wheel requirement changes no acceptance,
    whatever text stands around the bound. */
module VersionBounds {
  import opened Text
  import opened Versions

  function OperatorText(op: Operator): string
  {
    match op case Equal => "==" case AtLeast => ">=" case AtMost => "<=" case Above => ">" case Below => "<"
  }

  predicate VersionChar(c: char)
  {
    '0' <= c <= '9' || c == '.'
  }

  /** Any text `p`, an operator, blanks, a version and any text `q`. */
  function Bound(p: string, op: Operator, gap: string, version: string, q: string): string
  {
    p + (OperatorText(op) + (gap + (version + q)))
  }

  /** The version is a whole one: no digit or dot follows it. */
  predicate BoundOk(gap: string, version: string, q: string)
  {
    Blank(gap) && VersionText(version) && (q == "" || !VersionChar(q[0]))
  }

  // ----- trimming around the bound -----

  lemma {:induction false} LStripBefore(p: string, t: string)
    requires t != "" && !IsSpace(t[0])
    ensures LStrip(p + t) == LStrip(p) + t
    decreases |p|
  {
    if p == "" {
      assert p + t == t;
    } else {
      assert (p + t)[1..] == p[1..] + t;
      LStripBefore(p[1..], t);
    }
  }

  lemma {:induction false} RStripAfter(t: string, q: string)
    requires t != "" && !IsSpace(t[|t| - 1])
    ensures RStrip(t + q) == t + RStrip(q)
    decreases |q|
  {
    if q == "" {
      assert t + q == t;
    } else {
      assert (t + q)[..|t + q| - 1] == t + q[..|q| - 1];
      RStripAfter(t, q[..|q| - 1]);
    }
  }

  lemma {:induction false} RStripIsPrefix(q: string)
    ensures RStrip(q) <= q
    decreases |q|
  {
    if q != "" { RStripIsPrefix(q[..|q| - 1]); }
  }

  /** A prefix of what follows a version still does not continue it. */
  lemma PrefixKeepsBound(gap: string, version: string, q: string, r: string)
    requires BoundOk(gap, version, q) && r <= q
    ensures BoundOk(gap, version, r)
  {
    if r != "" { assert r[0] == q[0]; }
  }

  lemma BoundEnds(p: string, op: Operator, gap: string, version: string)
    requires Blank(gap) && VersionText(version)
    ensures var t := OperatorText(op) + (gap + version);
            t != "" && !IsSpace(t[0]) && !IsSpace(t[|t| - 1]) && t[0] in "=<>"
  {
    var t := OperatorText(op) + (gap + version);
    assert t[0] == OperatorText(op)[0] && t[|t| - 1] == version[|version| - 1];
  }

  lemma BoundGroups(p: string, op: Operator, gap: string, version: string, q: string)
    ensures Bound(p, op, gap, version, q) == p + (OperatorText(op) + (gap + version)) + q
    ensures Bound(p, op, gap, version, q) == p + (OperatorText(op) + (gap + version) + q)
  {}

  lemma StripBound(p: string, op: Operator, gap: string, version: string, q: string)
    requires Blank(gap) && VersionText(version)
    ensures Strip(Bound(p, op, gap, version, q)) == Bound(LStrip(p), op, gap, version, RStrip(q))
  {
    var t := OperatorText(op) + (gap + version);
    BoundEnds(p, op, gap, version);
    BoundGroups(p, op, gap, version, q);
    LStripBefore(p, t + q);
    BoundGroups(LStrip(p), op, gap, version, q);
    EndOf(LStrip(p), t);
    RStripAfter(LStrip(p) + t, q);
    BoundGroups(LStrip(p), op, gap, version, RStrip(q));
  }

  lemma EndOf(a: string, b: string)
    requires b != ""
    ensures (a + b)[|a + b| - 1] == b[|b| - 1]
  {}

  lemma {:induction false} NameLenBefore(p: string, t: string)
    requires t != "" && !NameChar(t[0])
    ensures NameLen(p + t) == NameLen(p)
    decreases |p|
  {
    if p == "" {
      assert p + t == t;
    } else {
      assert (p + t)[1..] == p[1..] + t;
      NameLenBefore(p[1..], t);
    }
  }

  lemma MemberOfBound(p: string, op: Operator, gap: string, version: string, q: string, c: char)
    requires Blank(gap) && VersionText(version) && c in "();["
    ensures c in Bound(p, op, gap, version, q) <==> c in p || c in q
  {
    var t := OperatorText(op) + (gap + version);
    BoundGroups(p, op, gap, version, q);
    assert c !in OperatorText(op) && c !in gap && c !in version;
    assert c !in t;
  }

  // ----- the requirement around the bound -----

  /** The parser, applied to what stands around a bound. */
  function ParseAround(p: string, q: string): Result<(string, string, string)>
  {
    if ';' in p || ';' in q || '[' in p || '[' in q then Err(MarkerOrExtra) else
    var p1 := LStrip(p);
    var n := NameLen(p1);
    if n == 0 then Err(BadForm) else
    match SpecifiersAround(LStrip(p1[n..]), RStrip(q))
    case Err(e) => Err(e)
    case Ok((p3, q3)) => Ok((Normalize(p1[..n]), p3, q3))
  }

  function SpecifiersAround(p: string, q: string): Result<(string, string)>
  {
    var open := p != "" && p[0] == '(';
    if open && (q == "" || q[|q| - 1] != ')') then Err(BadForm) else
    var p3 := if open then LStrip(p[1..]) else p;
    var q3 := if open then RStrip(q[..|q| - 1]) else q;
    if '(' in p3 || ')' in p3 || '(' in q3 || ')' in q3 then Err(BadForm) else Ok((p3, q3))
  }

  lemma ParseBound(p: string, op: Operator, gap: string, version: string, q: string)
    requires Blank(gap) && VersionText(version)
    ensures ParseRequirement(Bound(p, op, gap, version, q))
         == match ParseAround(p, q)
            case Err(e) => Err(e)
            case Ok((name, p3, q3)) => Ok((name, Bound(p3, op, gap, version, q3)))
  {
    MemberOfBound(p, op, gap, version, q, ';');
    MemberOfBound(p, op, gap, version, q, '[');
    StripBound(p, op, gap, version, q);
    var p1, q1 := LStrip(p), RStrip(q);
    var n := NameLen(p1);
    NameOfBound(p1, op, gap, version, q1);
    if n > 0 {
      RestOfBound(p1, n, op, gap, version, q1);
      RStripTwice(q);
      SpecifiersOfBound(LStrip(p1[n..]), op, gap, version, q1);
    }
  }

  lemma SpecifiersOfBound(p: string, op: Operator, gap: string, version: string, q: string)
    requires Blank(gap) && VersionText(version)
    ensures Specifiers(Bound(p, op, gap, version, q))
         == match SpecifiersAround(p, q)
            case Err(e) => Err(e)
            case Ok((p3, q3)) => Ok(Bound(p3, op, gap, version, q3))
  {
    var rest := Bound(p, op, gap, version, q);
    FirstOfBound(p, op, gap, version, q);
    LastOfBound(p, op, gap, version, q);
    if p != "" && p[0] == '(' {
      if q != "" {
        InnerOfBound(p, op, gap, version, q);
        var p3, q3 := LStrip(p[1..]), RStrip(q[..|q| - 1]);
        MemberOfBound(p3, op, gap, version, q3, '(');
        MemberOfBound(p3, op, gap, version, q3, ')');
        FirstOfBound(p3, op, gap, version, q3);
      }
    } else {
      MemberOfBound(p, op, gap, version, q, '(');
      MemberOfBound(p, op, gap, version, q, ')');
    }
  }

  lemma FirstOfBound(p: string, op: Operator, gap: string, version: string, q: string)
    requires Blank(gap) && VersionText(version)
    ensures var rest := Bound(p, op, gap, version, q); |rest| > 1 && (rest[0] == '(' <==> p != "" && p[0] == '(')
  {
    BoundEnds(p, op, gap, version);
    BoundGroups(p, op, gap, version, q);
    assert |OperatorText(op)| >= 1 && |version| >= 1;
  }

  lemma {:induction false} RStripTwice(q: string)
    ensures RStrip(RStrip(q)) == RStrip(q)
    decreases |q|
  {
    if q != "" && IsSpace(q[|q| - 1]) { RStripTwice(q[..|q| - 1]); }
  }

  lemma NameOfBound(p: string, op: Operator, gap: string, version: string, q: string)
    requires Blank(gap) && VersionText(version)
    ensures var t := Bound(p, op, gap, version, q);
            && NameLen(t) == NameLen(p) && t[..NameLen(p)] == p[..NameLen(p)]
  {
    BoundEnds(p, op, gap, version);
    BoundGroups(p, op, gap, version, q);
    NameLenBefore(p, OperatorText(op) + (gap + version) + q);
  }

  lemma RestOfBound(p: string, n: nat, op: Operator, gap: string, version: string, q: string)
    requires n <= |p| && Blank(gap) && VersionText(version)
    ensures Bound(p, op, gap, version, q)[n..] == Bound(p[n..], op, gap, version, q)
    ensures Strip(Bound(p, op, gap, version, q)[n..]) == Bound(LStrip(p[n..]), op, gap, version, RStrip(q))
  {
    BoundGroups(p, op, gap, version, q);
    BoundGroups(p[n..], op, gap, version, q);
    StripBound(p[n..], op, gap, version, q);
  }

  /** What stands between the first and the last character. */
  lemma InnerOfBound(p: string, op: Operator, gap: string, version: string, q: string)
    requires Blank(gap) && VersionText(version) && p != "" && q != ""
    ensures var rest := Bound(p, op, gap, version, q);
            |rest| > 1 && Strip(rest[1..|rest| - 1]) == Bound(LStrip(p[1..]), op, gap, version, RStrip(q[..|q| - 1]))
  {
    BoundGroups(p, op, gap, version, q);
    BetweenEnds(p, OperatorText(op) + (gap + version), q);
    BoundGroups(p[1..], op, gap, version, q[..|q| - 1]);
    StripBound(p[1..], op, gap, version, q[..|q| - 1]);
  }

  lemma LastOfBound(p: string, op: Operator, gap: string, version: string, q: string)
    requires VersionText(version)
    ensures var rest := Bound(p, op, gap, version, q);
            rest != "" && rest[|rest| - 1] == if q == "" then version[|version| - 1] else q[|q| - 1]
  {
    BoundGroups(p, op, gap, version, q);
    var head := p + (OperatorText(op) + (gap + version));
    if q == "" {
      EndOf(p + (OperatorText(op) + gap), version);
      assert p + (OperatorText(op) + gap) + version == head + q;
    } else {
      EndOf(head, q);
    }
  }

  lemma BetweenEnds(p: string, t: string, q: string)
    requires p != "" && q != ""
    ensures (p + t + q)[1..|p + t + q| - 1] == p[1..] + t + q[..|q| - 1]
  {}

  // ----- the segment of the bound -----

  /** `split` of two texts side by side: the last part of one continues in the first of the other. */
  lemma {:induction false} SplitOnConcat(x: string, y: string, c: char)
    ensures SplitOn(x + y, c) == Glued(SplitOn(x, c), SplitOn(y, c))
    decreases |x|
  {
    var b := SplitOn(y, c);
    if x == "" {
      assert x + y == y;
      GluedToNothing(b);
    } else {
      var r := SplitOn(x[1..], c);
      assert (x + y)[1..] == x[1..] + y && (x + y)[0] == x[0];
      SplitOnConcat(x[1..], y, c);
      if x[0] == c { GluedAfter(r, b); } else { GluedPrepended(x[0], r, b); }
    }
  }

  /** Two lists of parts, the last of one continued by the first of the other. */
  function Glued(a: seq<string>, b: seq<string>): (r: seq<string>)
    requires a != [] && b != []
    ensures r != []
  {
    a[..|a| - 1] + [a[|a| - 1] + b[0]] + b[1..]
  }

  lemma GluedToNothing(b: seq<string>)
    requires b != []
    ensures Glued([""], b) == b
  {
    assert [""][..0] == [] && "" + b[0] == b[0];
    assert b == [b[0]] + b[1..];
  }

  lemma GluedAfter(r: seq<string>, b: seq<string>)
    requires r != [] && b != []
    ensures Glued([""] + r, b) == [""] + Glued(r, b)
  {
    var a := [""] + r;
    assert a[..|a| - 1] == [""] + r[..|r| - 1] && a[|a| - 1] == r[|r| - 1];
  }

  lemma GluedPrepended(h: char, r: seq<string>, b: seq<string>)
    requires r != [] && b != []
    ensures var rest := Glued(r, b); Glued([[h] + r[0]] + r[1..], b) == [[h] + rest[0]] + rest[1..]
  {
    if |r| == 1 {
      assert [h] + (r[0] + b[0]) == [h] + r[0] + b[0];
    }
  }

  /** The segments around the bound do not depend on its version. */
  lemma SegmentsOfBound(p: string, op: Operator, gap: string, version: string, q: string)
    requires Blank(gap) && VersionText(version)
    ensures var a, b := SplitOn(p, ','), SplitOn(q, ',');
            Segments(Bound(p, op, gap, version, q))
            == a[..|a| - 1] + [Bound(a[|a| - 1], op, gap, version, b[0])] + b[1..]
  {
    var t := OperatorText(op) + (gap + version);
    var a, b := SplitOn(p, ','), SplitOn(q, ',');
    BoundGroups(p, op, gap, version, q);
    BoundEnds(p, op, gap, version);
    NoComma(op, gap, version);
    SplitOnOne(t, ',');
    SplitOnConcat(t, q, ',');
    GluedSingle(t, b);
    SplitOnConcat(p, t + q, ',');
    BoundGroups(a[|a| - 1], op, gap, version, b[0]);
  }

  lemma NoComma(op: Operator, gap: string, version: string)
    requires Blank(gap) && VersionText(version)
    ensures ',' !in OperatorText(op) + (gap + version)
  {
    assert ',' !in OperatorText(op) && ',' !in gap && ',' !in version;
  }

  lemma GluedSingle(t: string, b: seq<string>)
    requires b != []
    ensures Glued([t], b) == [t + b[0]] + b[1..] && Glued([t], b)[1..] == b[1..]
  {
    assert [t][..0] == [];
  }

  /** The first part of a text that does not continue a version does not continue it either. */
  lemma FirstPartKeepsBound(gap: string, version: string, q: string)
    requires BoundOk(gap, version, q)
    ensures BoundOk(gap, version, SplitOn(q, ',')[0])
  {}

  lemma OperatorOfPrinted(op: Operator, rest: string)
    requires rest != "" && (IsSpace(rest[0]) || VersionChar(rest[0]))
    ensures OperatorOf(OperatorText(op) + rest) == Some((op, |OperatorText(op)|))
    ensures (OperatorText(op) + rest)[|OperatorText(op)|..] == rest
  {
    var t := OperatorText(op) + rest;
    assert t[0] == OperatorText(op)[0];
    assert t[1] == if |OperatorText(op)| == 2 then '=' else rest[0];
  }

  /** With blanks only before the operator, the version is read as written. */
  lemma ParseWholeSegment(op: Operator, gap: string, version: string, q: string)
    requires BoundOk(gap, version, q)
    ensures ParseSegment(Bound("", op, gap, version, q))
         == if RStrip(q) == "" then Some((op, version)) else None
  {
    var q1 := RStrip(q);
    StripBound("", op, gap, version, q);
    RStripTwice(q);
    RStripIsPrefix(q);
    PrefixKeepsBound(gap, version, q, q1);
    WholeOperator(op, gap, version, q1);
    StripVersion(gap, version, q1);
    WholeVersion(version, q1);
  }

  lemma WholeOperator(op: Operator, gap: string, version: string, q: string)
    requires Blank(gap) && VersionText(version)
    ensures var t := Bound("", op, gap, version, q);
            OperatorOf(t) == Some((op, |OperatorText(op)|)) && t[|OperatorText(op)|..] == gap + version + q
  {
    var rest := gap + (version + q);
    assert rest[0] == if gap == "" then version[0] else gap[0];
    OperatorOfPrinted(op, rest);
    assert Bound("", op, gap, version, q) == OperatorText(op) + rest;
    Assoc(gap, version, q);
  }

  lemma WholeVersion(version: string, q: string)
    requires VersionText(version) && (q == "" || !VersionChar(q[0]))
    ensures VersionText(version + q) <==> q == ""
    ensures q == "" ==> version + q == version
  {
    if q != "" { assert (version + q)[|version|] == q[0]; }
  }

  lemma StripVersion(gap: string, version: string, q: string)
    requires Blank(gap) && VersionText(version) && RStrip(q) == q
    ensures Strip(gap + version + q) == version + q
  {
    assert gap + version + q == gap + (version + q);
    LStripBlank(gap, version + q);
    RStripAfter(version, q);
  }

  /** With anything else before the operator, the segment is refused. */
  lemma ParseCrowdedSegment(p: string, op: Operator, gap: string, version: string, q: string)
    requires Blank(gap) && VersionText(version) && p != "" && LStrip(p) == p
    ensures ParseSegment(Bound(p, op, gap, version, q)) == None
  {
    var t := Bound(p, op, gap, version, RStrip(q));
    StripBound(p, op, gap, version, q);
    match OperatorOf(t)
    case None =>
    case Some((other, n)) =>
      OperatorStays(p, op, gap + (version + RStrip(q)), n);
      var k :| n <= k < |t| && t[k] in "=<>";
      StripKeeps(t[n..], k - n);
  }

  /** Past any operator at the start, a sign of the later one is left. */
  lemma OperatorStays(p: string, op: Operator, rest: string, n: nat)
    requires p != "" && rest != ""
    requires var t := p + (OperatorText(op) + rest); OperatorOf(t).Some? && OperatorOf(t).value.1 == n
    ensures var t := p + (OperatorText(op) + rest); exists k :: n <= k < |t| && t[k] in "=<>"
  {
    var t := p + (OperatorText(op) + rest);
    var k := |p| + |OperatorText(op)| - 1;
    assert t[k] == OperatorText(op)[|OperatorText(op)| - 1];
    assert n <= 2;
    assert |OperatorText(op)| == 1 ==> t[|p|] != '=';
  }

  /** Trimming keeps every character that is not a blank. */
  lemma {:induction false} StripKeeps(t: string, k: nat)
    requires k < |t| && t[k] in "=<>"
    ensures !VersionText(Strip(t))
  {
    LStripKeeps(t, t[k]);
    RStripKeeps(LStrip(t), t[k]);
    var j :| 0 <= j < |Strip(t)| && Strip(t)[j] == t[k];
  }

  lemma {:induction false} LStripKeeps(t: string, c: char)
    requires c in t && !IsSpace(c)
    ensures c in LStrip(t)
    decreases |t|
  {
    if IsSpace(t[0]) { LStripKeeps(t[1..], c); }
  }

  lemma {:induction false} RStripKeeps(t: string, c: char)
    requires c in t && !IsSpace(c)
    ensures c in RStrip(t)
    decreases |t|
  {
    if IsSpace(t[|t| - 1]) {
      assert t == t[..|t| - 1] + [t[|t| - 1]];
      RStripKeeps(t[..|t| - 1], c);
    }
  }

  lemma AppendedIsVersion(gap: string, version: string, q: string)
    requires BoundOk(gap, version, q)
    ensures BoundOk(gap, version + ".0", q)
  {}

  /** Writing `.0` after the bound of a segment changes no verdict on it. */
  lemma AppendZeroToSegment(p: string, op: Operator, gap: string, version: string, q: string, pinned: Version)
    requires BoundOk(gap, version, q)
    ensures CheckSegment(Bound(p, op, gap, version + ".0", q), pinned) == CheckSegment(Bound(p, op, gap, version, q), pinned)
  {
    AppendedIsVersion(gap, version, q);
    var p1 := LStrip(p);
    SegmentIsTrimmed(p, op, gap, version, q);
    SegmentIsTrimmed(p, op, gap, version + ".0", q);
    LStripTwice(p);
    if p1 == "" {
      ParseWholeSegment(op, gap, version, q);
      ParseWholeSegment(op, gap, version + ".0", q);
      KeyOfAppendedZero(version);
      match VersionKey(version)
      case None =>
      case Some(bound) => AppendZero(bound, pinned);
    } else {
      ParseCrowdedSegment(p1, op, gap, version, q);
      ParseCrowdedSegment(p1, op, gap, version + ".0", q);
    }
  }

  lemma {:induction false} LStripTwice(p: string)
    ensures LStrip(LStrip(p)) == LStrip(p)
    decreases |p|
  {
    if p != "" && IsSpace(p[0]) { LStripTwice(p[1..]); }
  }

  lemma SegmentIsTrimmed(p: string, op: Operator, gap: string, version: string, q: string)
    requires Blank(gap) && VersionText(version)
    ensures ParseSegment(Bound(p, op, gap, version, q)) == ParseSegment(Bound(LStrip(p), op, gap, version, q))
  {
    StripBound(p, op, gap, version, q);
    StripBound(LStrip(p), op, gap, version, q);
    LStripTwice(p);
  }

  // ----- the requirement -----

  lemma SegmentsAgree(p: string, op: Operator, gap: string, version: string, q: string, pinned: Version)
    requires BoundOk(gap, version, q)
    ensures (forall s :: s in Segments(Bound(p, op, gap, version, q)) ==> CheckSegment(s, pinned) == None)
       <==> (forall s :: s in Segments(Bound(p, op, gap, version + ".0", q)) ==> CheckSegment(s, pinned) == None)
  {
    var a, b := SplitOn(p, ','), SplitOn(q, ',');
    AppendedIsVersion(gap, version, q);
    SegmentsOfBound(p, op, gap, version, q);
    SegmentsOfBound(p, op, gap, version + ".0", q);
    FirstPartKeepsBound(gap, version, q);
    AppendZeroToSegment(a[|a| - 1], op, gap, version, b[0], pinned);
    OneChanged(a[..|a| - 1], Bound(a[|a| - 1], op, gap, version, b[0]), Bound(a[|a| - 1], op, gap, version + ".0", b[0]), b[1..], pinned);
  }

  lemma OneChanged(a: seq<string>, x: string, y: string, b: seq<string>, pinned: Version)
    requires CheckSegment(x, pinned) == CheckSegment(y, pinned)
    ensures (forall s :: s in a + [x] + b ==> CheckSegment(s, pinned) == None)
       <==> (forall s :: s in a + [y] + b ==> CheckSegment(s, pinned) == None)
  {
    assert forall s :: s in a + [x] + b <==> s in a || s == x || s in b;
    assert forall s :: s in a + [y] + b <==> s in a || s == y || s in b;
  }

  /** In any requirement text, writing `.0` after any bound changes no acceptance. */
  lemma AppendZeroToBound(p: string, op: Operator, gap: string, version: string, q: string, python: set<string>, ref: string)
    requires BoundOk(gap, version, q)
    ensures Accepts(Bound(p, op, gap, version, q), python, ref)
       <==> Accepts(Bound(p, op, gap, version + ".0", q), python, ref)
  {
    AppendedIsVersion(gap, version, q);
    ParseBound(p, op, gap, version, q);
    ParseBound(p, op, gap, version + ".0", q);
    match ParseAround(p, q)
    case Err(_) =>
    case Ok((name, p3, q3)) =>
      AroundKeepsBound(p, gap, version, q);
      if Starts(ref, Prefix(name)) && VersionKey(ref[|Prefix(name)|..]).Some? {
        SegmentsAgree(p3, op, gap, version, q3, VersionKey(ref[|Prefix(name)|..]).value);
      }
  }

  lemma AroundKeepsBound(p: string, gap: string, version: string, q: string)
    requires BoundOk(gap, version, q) && ParseAround(p, q).Ok?
    ensures BoundOk(gap, version, ParseAround(p, q).value.2)
  {
    var q1 := RStrip(q);
    RStripIsPrefix(q);
    PrefixKeepsBound(gap, version, q, q1);
    if q1 != "" {
      RStripIsPrefix(q1[..|q1| - 1]);
      PrefixKeepsBound(gap, version, q1, q1[..|q1| - 1]);
      PrefixKeepsBound(gap, version, q1[..|q1| - 1], RStrip(q1[..|q1| - 1]));
    }
  }
}
