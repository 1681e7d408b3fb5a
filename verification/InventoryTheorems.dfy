/** What the inventories hold, on the lines, words and names of the files
    themselves. */
module InventoryTheorems {
  import opened Text
  import opened Selections
  import RequirementIncludes
  import Versions
  import Declarations
  import opened Sbom
  import opened InventorySpec

  // ----- requirement lines -----

  function OwnText(): RequirementIncludes.Line -> Option<string>
  {
    (l: RequirementIncludes.Line) => if l.Requirement? then Some(l.text) else None
  }

  lemma {:induction false} RequirementsAreChosen(lines: seq<RequirementIncludes.Line>)
    ensures RequirementIncludes.Requirements(lines) == Choose(lines, OwnText())
    decreases |lines|
  {
    if lines != [] {
      var n := |lines| - 1;
      assert lines == lines[..n] + [lines[n]];
      RequirementsAreChosen(lines[..n]);
      RequirementIncludes.RequirementsSnoc(lines[..n], lines[n]);
      ChooseSnoc(lines[..n], lines[n], OwnText());
    }
  }

  /** A file keeps exactly its requirement lines, in order. */
  lemma RequirementsExactly(lines: seq<RequirementIncludes.Line>) returns (at: seq<nat>)
    ensures Selected(lines, OwnText(), at, RequirementIncludes.Requirements(lines))
  {
    at := Chosen(lines, OwnText());
    RequirementsAreChosen(lines);
  }

  // ----- a pinned line -----

  /** `name[extras]==version ; marker`; extras and marker may be missing. */
  datatype Pin = Pin(name: string, extras: Option<string>, version: string, marker: Option<Marker>)
  datatype Marker = Marker(blanks: string, text: string)

  function ExtrasText(extras: Option<string>): string
  {
    match extras case None => "" case Some(e) => "[" + (e + "]")
  }

  function MarkerText(marker: Option<Marker>): string
  {
    match marker case None => "" case Some(m) => m.blanks + (";" + m.text)
  }

  function PinText(p: Pin): string
  {
    p.name + (ExtrasText(p.extras) + ("==" + (p.version + MarkerText(p.marker))))
  }

  predicate PinChars(version: string)
  {
    version != "" && forall i :: 0 <= i < |version| ==> version[i] != ';' && !IsSpace(version[i])
  }

  predicate PinOk(p: Pin)
  {
    && Declarations.NameText(p.name) && PinChars(p.version)
    && (p.extras.Some? ==> p.extras.value != "" && ']' !in p.extras.value)
    && (p.marker.Some? ==> Blank(p.marker.value.blanks))
  }

  lemma {:induction false} VersionThenOther(version: string, t: string)
    requires forall i :: 0 <= i < |version| ==> version[i] != ';' && !IsSpace(version[i])
    requires t == "" || t[0] == ';' || IsSpace(t[0])
    ensures PinLen(version + t) == |version|
    decreases |version|
  {
    if version == "" {
      assert version + t == t;
    } else {
      assert (version + t)[1..] == version[1..] + t;
      VersionThenOther(version[1..], t);
    }
  }

  lemma {:induction false} BracketAfter(e: string, t: string)
    requires ']' !in e
    ensures Find(e + ("]" + t), "]") == Some(|e|)
    decreases |e|
  {
    var all := e + ("]" + t);
    if e == "" {
      assert all[..1] == "]";
    } else {
      assert e[0] in e && all[0] == e[0] && all[1..] == e[1..] + ("]" + t);
      assert all[..1] == [e[0]];
      BracketAfter(e[1..], t);
    }
  }

  lemma ExtrasPassed(extras: Option<string>, t: string)
    requires extras.Some? ==> extras.value != "" && ']' !in extras.value
    requires t != "" && t[0] != '['
    ensures AfterExtras(ExtrasText(extras) + t) == Some(t)
  {
    match extras
    case None => assert ExtrasText(extras) + t == t;
    case Some(e) =>
      var all := ExtrasText(extras) + t;
      assert all == ("[" + e) + ("]" + t);
      assert ']' !in "[" + e;
      BracketAfter("[" + e, t);
      assert all[|e| + 2..] == t;
  }

  lemma MarkerFollows(marker: Option<Marker>)
    requires marker.Some? ==> Blank(marker.value.blanks)
    ensures var t := MarkerText(marker);
            && (t == "" || t[0] == ';' || IsSpace(t[0]))
            && (t == "" || (LStrip(t) != "" && LStrip(t)[0] == ';'))
  {
    if marker.Some? { LStripBlank(marker.value.blanks, ";" + marker.value.text); }
  }

  predicate EndsPin(t: string)
  {
    t == "" || (LStrip(t) != "" && LStrip(t)[0] == ';')
  }

  lemma PinOfParts(line: string, n: nat, rest: string, v: nat)
    requires n == Versions.NameLen(line) > 0 && AfterExtras(line[n..]) == Some(rest)
    requires StartsPair(rest, '=', '=') && v == PinLen(rest[2..])
    ensures PinOf(line)
         == if v > 0 && EndsPin(rest[2 + v..]) then Some((Versions.Normalize(line[..n]), rest[2..2 + v])) else None
  {}

  lemma PinIsRead(p: Pin)
    requires PinOk(p)
    ensures PinOf(PinText(p)) == Some((Versions.Normalize(p.name), p.version))
  {
    hide PinOf, AfterExtras, PinLen, Versions.NameLen, LStrip, Versions.Normalize;
    var tail := MarkerText(p.marker);
    var rest := "==" + (p.version + tail);
    var after := ExtrasText(p.extras) + rest;
    assert after != "" && !Versions.NameChar(after[0]);
    Declarations.NameThenOther(p.name, after);
    ExtrasPassed(p.extras, rest);
    MarkerFollows(p.marker);
    VersionThenOther(p.version, tail);
    assert rest[2..] == p.version + tail;
    assert rest[2 + |p.version|..] == tail && rest[2..2 + |p.version|] == p.version;
    PinOfParts(PinText(p), |p.name|, rest, |p.version|);
  }

  // ----- and nothing else is a pin -----

  lemma {:induction false} LeadingBlanks(t: string) returns (b: string)
    ensures Blank(b) && t == b + LStrip(t)
    decreases |t|
  {
    b := "";
    if t != "" && IsSpace(t[0]) {
      var rest := LeadingBlanks(t[1..]);
      b := [t[0]] + rest;
      assert t == [t[0]] + t[1..];
    }
  }

  lemma {:induction false} PinLenIsVersion(t: string)
    ensures forall i :: 0 <= i < PinLen(t) ==> t[i] != ';' && !IsSpace(t[i])
    decreases |t|
  {
    if t != "" && t[0] != ';' && !IsSpace(t[0]) { PinLenIsVersion(t[1..]); }
  }

  lemma {:induction false} NoEarlierBracket(t: string)
    requires Find(t, "]").Some?
    ensures ']' !in t[..Find(t, "]").value]
    decreases |t|
  {
    assert t[..1] == [t[0]];
    if t[0] != ']' {
      assert Starts(t[1..][Find(t[1..], "]").value..], "]");
      NoEarlierBracket(t[1..]);
      assert t[..Find(t, "]").value] == [t[0]] + t[1..][..Find(t[1..], "]").value];
    }
  }

  lemma ExtrasAre(t: string) returns (extras: Option<string>)
    requires AfterExtras(t).Some?
    ensures extras.Some? ==> extras.value != "" && ']' !in extras.value
    ensures t == ExtrasText(extras) + AfterExtras(t).value
  {
    extras := None;
    if t != "" && t[0] == '[' {
      var k := Find(t, "]").value;
      NoEarlierBracket(t);
      extras := Some(t[1..k]);
      assert forall c :: c in t[1..k] ==> c in t[..k];
      assert t[k..][..1] == "]" && t[k] == t[k..][0];
      assert t == "[" + t[1..k] + "]" + t[k + 1..];
    }
  }

  lemma MarkerIs(t: string) returns (marker: Option<Marker>)
    requires EndsPin(t)
    ensures marker.Some? ==> Blank(marker.value.blanks)
    ensures t == MarkerText(marker)
  {
    marker := None;
    if t != "" {
      var b := LeadingBlanks(t);
      marker := Some(Marker(b, LStrip(t)[1..]));
      assert LStrip(t) == ";" + LStrip(t)[1..];
    }
  }

  lemma PinPieces(line: string) returns (n: nat, rest: string, v: nat)
    requires PinOf(line).Some?
    ensures n == Versions.NameLen(line) > 0 && AfterExtras(line[n..]) == Some(rest)
    ensures StartsPair(rest, '=', '=') && v == PinLen(rest[2..]) > 0 && EndsPin(rest[2 + v..])
    ensures PinOf(line).value == (Versions.Normalize(line[..n]), rest[2..2 + v])
  {
    n := Versions.NameLen(line);
    rest := AfterExtras(line[n..]).value;
    v := PinLen(rest[2..]);
  }

  lemma VersionPart(rest: string, v: nat)
    requires |rest| >= 2 && v == PinLen(rest[2..]) > 0
    ensures PinChars(rest[2..2 + v])
  {
    PinLenIsVersion(rest[2..]);
    forall i | 0 <= i < v ensures rest[2..2 + v][i] == rest[2..][i] {}
  }

  lemma Reassembled(line: string, n: nat, extras: string, rest: string, v: nat)
    requires n <= |line| && line[n..] == extras + rest && StartsPair(rest, '=', '=') && v <= |rest| - 2
    ensures line[..n] + (extras + ("==" + (rest[2..2 + v] + rest[2 + v..]))) == line
  {
    assert rest == "==" + (rest[2..2 + v] + rest[2 + v..]);
  }

  lemma ReadIsPin(line: string) returns (p: Pin)
    requires PinOf(line).Some?
    ensures PinOk(p) && PinText(p) == line
    ensures PinOf(line).value == (Versions.Normalize(p.name), p.version)
  {
    hide PinOf, AfterExtras, PinLen, Versions.NameLen, LStrip, Versions.Normalize;
    var n, rest, v := PinPieces(line);
    Declarations.NameLenIsName(line);
    VersionPart(rest, v);
    var extras := ExtrasAre(line[n..]);
    var marker := MarkerIs(rest[2 + v..]);
    Reassembled(line, n, ExtrasText(extras), rest, v);
    p := Pin(line[..n], extras, rest[2..2 + v], marker);
  }

  /** A line that pins `version` of `name`, with any extras and any marker. */
  ghost predicate Pins(line: string, name: string, version: string)
  {
    exists p :: PinOk(p) && PinText(p) == line && Versions.Normalize(p.name) == name && p.version == version
  }

  /** A line is read as a pin iff it is the text of one, and then as what it pins. */
  lemma PinOfExactly(line: string, name: string, version: string)
    ensures PinOf(line) == Some((name, version)) <==> Pins(line, name, version)
  {
    if PinOf(line) == Some((name, version)) {
      var p := ReadIsPin(line);
      assert Pins(line, name, version);
    }
    if Pins(line, name, version) {
      var p :| PinOk(p) && PinText(p) == line && Versions.Normalize(p.name) == name && p.version == version;
      PinIsRead(p);
    }
  }

  /** The references of the pins of a file: exactly those its lines write. */
  lemma PinnedExactly(lines: seq<string>, quote: string -> string, ref: Ref)
    ensures AllPinned(lines) <==> forall line :: line in lines ==> exists n, v :: Pins(line, n, v)
    ensures ref in Pinned(lines, quote)
       <==> exists line, n, v :: line in lines && Pins(line, n, v) && ref == "pkg:pypi/" + n + "@" + quote(v)
  {
    forall line, n, v ensures PinOf(line) == Some((n, v)) <==> Pins(line, n, v) { PinOfExactly(line, n, v); }
    hide Pins, PinOf;
    if ref in Pinned(lines, quote) {
      var line :| line in lines && PinOf(line).Some? && ref == PinRef(line, quote);
      assert Pins(line, PinOf(line).value.0, PinOf(line).value.1);
    }
    if exists line, n, v :: line in lines && Pins(line, n, v) && ref == "pkg:pypi/" + n + "@" + quote(v) {
      var line, n, v :| line in lines && Pins(line, n, v) && ref == "pkg:pypi/" + n + "@" + quote(v);
      assert PinOf(line) == Some((n, v)) && PinRef(line, quote) == ref;
    }
    if AllPinned(lines) {
      forall line | line in lines ensures exists n, v :: Pins(line, n, v) {
        assert Pins(line, PinOf(line).value.0, PinOf(line).value.1);
      }
    }
  }

  // ----- a dependency of a lock -----

  predicate Parens(t: string)
  {
    forall i :: 0 <= i < |t| ==> t[i] == '(' || t[i] == ')'
  }

  predicate NoParenAtEnds(t: string)
  {
    t != "" ==> t[0] !in "()" && t[|t| - 1] !in "()"
  }

  /** `word` is `source` in any parentheses. */
  ghost predicate InParens(word: string, source: string)
  {
    NoParenAtEnds(source) && exists a, b :: Parens(a) && Parens(b) && word == a + source + b
  }

  lemma {:induction false} UnparenthesizedIn(t: string) returns (a: string, b: string)
    ensures Parens(a) && Parens(b) && t == a + Unparenthesized(t) + b && NoParenAtEnds(Unparenthesized(t))
    decreases |t|
  {
    a, b := "", "";
    if t != "" && t[0] in "()" {
      a, b := UnparenthesizedIn(t[1..]);
      FrontParen(t, a, Unparenthesized(t[1..]), b);
      a := [t[0]] + a;
    } else if t != "" && t[|t| - 1] in "()" {
      var n := |t| - 1;
      a, b := UnparenthesizedIn(t[..n]);
      assert t == t[..n] + [t[n]];
      Assoc(a + Unparenthesized(t[..n]), b, [t[n]]);
      b := b + [t[n]];
    }
  }

  lemma FrontParen(t: string, a: string, s: string, b: string)
    requires t != "" && t[0] in "()" && Parens(a) && t[1..] == a + s + b
    ensures Parens([t[0]] + a) && t == [t[0]] + a + s + b
  {
    assert t == [t[0]] + t[1..];
  }

  lemma {:induction false} UnparenthesizedOf(a: string, s: string, b: string)
    requires Parens(a) && Parens(b) && NoParenAtEnds(s)
    ensures Unparenthesized(a + s + b) == s
    decreases |a| + |b|
  {
    var t := a + s + b;
    if a != "" {
      assert t[0] == a[0] && t[1..] == a[1..] + s + b;
      UnparenthesizedOf(a[1..], s, b);
    } else if b != "" {
      if s == "" {
        assert t[0] == b[0] && t[1..] == "" + s + b[1..];
        UnparenthesizedOf("", s, b[1..]);
      } else {
        assert t[0] == s[0] && t[|t| - 1] == b[|b| - 1] && t[..|t| - 1] == "" + s + b[..|b| - 1];
        UnparenthesizedOf("", s, b[..|b| - 1]);
      }
    } else {
      assert t == s;
    }
  }

  lemma UnparenthesizedExactly(word: string, source: string)
    ensures source == Unparenthesized(word) <==> InParens(word, source)
  {
    var a, b := UnparenthesizedIn(word);
    if InParens(word, source) {
      var c, d :| Parens(c) && Parens(d) && word == c + source + d;
      UnparenthesizedOf(c, source, d);
    }
  }

  function SourceOf(p: Package): string
  {
    match p.source case None => "local" case Some(s) => s
  }

  /** The words of a dependency mean the package: its name, its version if one is
      given, its source if one is given, in any parentheses. */
  ghost predicate Means(words: seq<string>, p: Package)
  {
    && |words| > 0 && words[0] == p.name
    && (|words| > 1 ==> words[1] == p.version)
    && (|words| > 2 ==> InParens(words[2], SourceOf(p)))
  }

  predicate Named(ref: Ref, p: Package)
  {
    ref == "cargo:" + p.name + "@" + p.version + ":" + SourceOf(p)
  }

  predicate SamePackage(p: Package, q: Package)
  {
    p.name == q.name && p.version == q.version && SourceOf(p) == SourceOf(q)
  }

  lemma MeansExactly(words: seq<string>, p: Package)
    ensures Matches(KeyOf(p), words) <==> Means(words, p)
    ensures forall ref :: Named(ref, p) <==> ref == RefOf(p)
  {
    if |words| > 2 { UnparenthesizedExactly(words[2], SourceOf(p)); }
  }

  /** A dependency is unambiguous iff it means some package of the lock, and all
      it means are the same one. */
  ghost predicate MeansOne(lock: Lock, words: seq<string>)
  {
    exists p :: p in lock && Means(words, p) && forall q :: q in lock && Means(words, q) ==> SamePackage(p, q)
  }

  lemma CandidatesExactly(lock: Lock, words: seq<string>)
    ensures |Candidates(lock, words)| == 1 <==> MeansOne(lock, words)
  {
    forall p ensures Matches(KeyOf(p), words) <==> Means(words, p) { MeansExactly(words, p); }
    hide Matches, Means;
    var all := Candidates(lock, words);
    if |all| == 1 {
      var k :| k in all;
      Versions.OnlyElement(all, k);
      var p :| p in lock && Matches(KeyOf(p), words) && KeyOf(p) == k;
      forall q | q in lock && Means(words, q) ensures SamePackage(p, q) { assert KeyOf(q) in all; }
    }
    if MeansOne(lock, words) {
      var p :| p in lock && Means(words, p) && forall q :: q in lock && Means(words, q) ==> SamePackage(p, q);
      assert KeyOf(p) in all;
      forall k | k in all ensures k == KeyOf(p) {}
      assert all == {KeyOf(p)};
    }
  }

  /** An edge of the lock files: a package names another of its lock. */
  ghost predicate Locked(lock: Lock, ref: Ref, target: Ref)
  {
    exists p, q, words ::
      && p in lock && Named(ref, p) && words in p.dependencies
      && q in lock && Means(words, q) && Named(target, q)
  }

  /** The lock inventory exists iff every dependency means one package of its
      lock; its components are the packages, its edges the dependencies. */
  lemma CargoExactly(locks: seq<Lock>, components: map<Ref, Component>, edges: Graph, ref: Ref, target: Ref)
    requires IsCargo(locks, components, edges)
    ensures ref in components <==> exists lock, p :: lock in locks && p in lock && Named(ref, p)
    ensures ref in edges <==> ref in components
    ensures ref in edges && target in edges[ref] <==> exists lock :: lock in locks && Locked(lock, ref, target)
  {
    forall p, words ensures Matches(KeyOf(p), words) <==> Means(words, p) { MeansExactly(words, p); }
    forall p, r ensures Named(r, p) <==> r == RefOf(p) { MeansExactly([], p); }
    hide Matches, Means, Named, RefOf;
    CargoRefsAre(locks, ref);
    forall lock | lock in locks ensures target in Sent(lock, lock, ref) <==> Locked(lock, ref, target) {
      SentIs(lock, ref, target);
    }
    CargoTargetsKnown(locks, ref);
  }

  lemma CargoRefsAre(locks: seq<Lock>, ref: Ref)
    ensures ref in CargoRefs(locks) <==> exists lock, p :: lock in locks && p in lock && ref == RefOf(p)
  {
    hide RefOf;
    if lock, p :| lock in locks && p in lock && ref == RefOf(p) { assert ref in LockRefs(lock); }
  }

  lemma SentIs(lock: Lock, ref: Ref, target: Ref)
    ensures target in Sent(lock, lock, ref) <==> Locked(lock, ref, target)
  {
    forall p, words ensures Matches(KeyOf(p), words) <==> Means(words, p) { MeansExactly(words, p); }
    forall p, r ensures Named(r, p) <==> r == RefOf(p) { MeansExactly([], p); }
    hide Matches, Means, Named;
    if target in Sent(lock, lock, ref) {
      var p :| p in lock && RefOf(p) == ref && target in Meant(lock, p.dependencies);
      var words, k :| words in p.dependencies && k in Candidates(lock, words) && target == KeyRef(k);
      var q :| q in lock && Matches(KeyOf(q), words) && KeyOf(q) == k;
      assert Named(target, q);
    }
    if Locked(lock, ref, target) {
      var p, q, words :| p in lock && Named(ref, p) && words in p.dependencies
                         && q in lock && Means(words, q) && Named(target, q);
      assert KeyOf(q) in Candidates(lock, words) && target == KeyRef(KeyOf(q));
      assert target in Meant(lock, p.dependencies);
    }
  }

  lemma CargoOkExactly(locks: seq<Lock>)
    ensures CargoOk(locks)
       <==> forall lock, p, words :: lock in locks && p in lock && words in p.dependencies ==> MeansOne(lock, words)
  {
    forall lock, words ensures |Candidates(lock, words)| == 1 <==> MeansOne(lock, words) { CandidatesExactly(lock, words); }
  }

  // ----- wheels -----

  /** The wheel is the release's, and every declaration has a pin. */
  ghost predicate GoodWheel(w: Wheel, version: string, python: set<Ref>)
  {
    && w.metadata == 1 && w.name == "plenora-database" && w.version == version
    && forall d :: d in w.declared ==> exists ref :: Versions.Accepts(d, python, ref)
  }

  /** The wheel inventory: every wheel, each with exactly the pins its declarations are met by. */
  lemma WheelsExactly(dist: map<string, Wheel>, version: string, python: set<Ref>,
                      components: map<Ref, Component>, edges: Graph, ref: Ref, target: Ref)
    requires IsWheels(dist, dist.Keys, version, python, components, edges)
    ensures forall f :: f in dist ==> GoodWheel(dist[f], version, python)
    ensures ref in components <==> exists f :: f in dist && ref == "wheel:" + f
    ensures ref in edges <==> exists f :: f in dist && dist[f].declared != [] && ref == "wheel:" + f
    ensures ref in edges && target in edges[ref]
       <==> exists f, d :: f in dist && ref == "wheel:" + f && d in dist[f].declared && Versions.Accepts(d, python, target)
  {
    hide Versions.Accepts;
    forall f | f in dist ensures GoodWheel(dist[f], version, python) { assert WheelOk(dist[f], version, python); }
    forall f ensures WheelRef(f) == "wheel:" + f {}
    if ref in edges && target in edges[ref] {
      var f :| f in dist && dist[f].declared != [] && ref == WheelRef(f);
      assert target in Runtime(dist[f].declared, python);
      var d :| d in dist[f].declared && Versions.Accepts(d, python, target);
    }
    if exists f, d :: f in dist && ref == "wheel:" + f && d in dist[f].declared && Versions.Accepts(d, python, target) {
      var f, d :| f in dist && ref == "wheel:" + f && d in dist[f].declared && Versions.Accepts(d, python, target);
      AcceptedPin(d, python, target);
      assert WheelRef(f) in edges && edges[WheelRef(f)] == Runtime(dist[f].declared, python);
    }
  }
}
