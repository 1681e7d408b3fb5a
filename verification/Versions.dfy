/** Version order and requirement resolution of scripts/render_release_sbom.py:
    `version_key`, `compare_versions` and `resolve_requirement`. */
module Versions {
  import opened Text

  type Version = seq<nat>

  // ----- compare_versions -----

  function Pad(v: Version, width: nat): (r: Version)
    requires |v| <= width
    ensures |r| == width
  {
    v + seq(width - |v|, i => 0)
  }

  /** Order of two tuples of one length: -1, 0 or 1. */
  function Lex(a: Version, b: Version): int
    requires |a| == |b|
  {
    if a == [] then 0
    else if a[0] < b[0] then -1
    else if a[0] > b[0] then 1
    else Lex(a[1..], b[1..])
  }

  function CompareVersions(left: Version, right: Version): int
  {
    var width := if |left| > |right| then |left| else |right|;
    Lex(Pad(left, width), Pad(right, width))
  }

  /** A release number read as infinite: PEP 440 pads with zeros. */
  function At(v: Version, i: nat): nat
  {
    if i < |v| then v[i] else 0
  }

  ghost predicate Same(a: Version, b: Version)
  {
    forall i: nat :: At(a, i) == At(b, i)
  }

  /** `b` is the greater at the first place where the two differ. */
  ghost predicate Precedes(a: Version, b: Version)
  {
    exists i: nat :: DiffersAt(a, b, i)
  }

  ghost predicate DiffersAt(a: Version, b: Version, i: nat)
  {
    At(a, i) < At(b, i) && forall j: nat :: j < i ==> At(a, j) == At(b, j)
  }

  lemma {:induction false} LexIsFirstDifference(a: Version, b: Version)
    requires |a| == |b|
    ensures Lex(a, b) == 0 ==> a == b
    ensures Lex(a, b) != 0 ==>
      exists i :: 0 <= i < |a| && a[..i] == b[..i] && (if Lex(a, b) < 0 then a[i] < b[i] else b[i] < a[i])
    ensures -1 <= Lex(a, b) <= 1
  {
    if a != [] {
      if a[0] != b[0] {
        assert a[..0] == b[..0];
      } else {
        LexIsFirstDifference(a[1..], b[1..]);
        if Lex(a, b) == 0 {
          assert a == [a[0]] + a[1..];
        } else {
          var i :| 0 <= i < |a[1..]| && a[1..][..i] == b[1..][..i]
                   && (if Lex(a, b) < 0 then a[1..][i] < b[1..][i] else b[1..][i] < a[1..][i]);
          assert a[..i + 1] == [a[0]] + a[1..][..i] && b[..i + 1] == [b[0]] + b[1..][..i];
        }
      }
    }
  }

  lemma PadAt(v: Version, width: nat, i: nat)
    requires |v| <= width && i < width
    ensures Pad(v, width)[i] == At(v, i)
  {}

  /** The comparison is the zero-padded order: exactly one of the three holds. */
  lemma CompareIsPaddedOrder(a: Version, b: Version)
    ensures CompareVersions(a, b) < 0 ==> Precedes(a, b)
    ensures CompareVersions(a, b) == 0 ==> Same(a, b)
    ensures CompareVersions(a, b) > 0 ==> Precedes(b, a)
  {
    var width := if |a| > |b| then |a| else |b|;
    var p, q := Pad(a, width), Pad(b, width);
    LexIsFirstDifference(p, q);
    forall i: nat | i < width ensures p[i] == At(a, i) && q[i] == At(b, i) { PadAt(a, width, i); PadAt(b, width, i); }
    if Lex(p, q) != 0 {
      var i :| 0 <= i < width && p[..i] == q[..i] && (if Lex(p, q) < 0 then p[i] < q[i] else q[i] < p[i]);
      forall j: nat | j < i ensures At(a, j) == At(b, j) { assert p[..i][j] == q[..i][j]; }
      assert if Lex(p, q) < 0 then DiffersAt(a, b, i) else DiffersAt(b, a, i);
    }
  }

  /** The three cases exclude each other, so the sign decides which one holds. */
  lemma CompareIsExact(a: Version, b: Version)
    ensures CompareVersions(a, b) < 0 <==> Precedes(a, b)
    ensures CompareVersions(a, b) == 0 <==> Same(a, b)
    ensures CompareVersions(a, b) > 0 <==> Precedes(b, a)
    ensures -1 <= CompareVersions(a, b) <= 1
  {
    CompareIsPaddedOrder(a, b);
    var width := if |a| > |b| then |a| else |b|;
    LexIsFirstDifference(Pad(a, width), Pad(b, width));
  }

  /** A total preorder, across any lengths: antisymmetric in sign and transitive. */
  lemma CompareIsTotalPreorder(a: Version, b: Version, c: Version)
    ensures CompareVersions(a, b) == -CompareVersions(b, a)
    ensures CompareVersions(a, b) <= 0 && CompareVersions(b, c) <= 0 ==> CompareVersions(a, c) <= 0
    ensures CompareVersions(a, b) < 0 && CompareVersions(b, c) <= 0 ==> CompareVersions(a, c) < 0
  {
    CompareIsExact(a, b);
    CompareIsExact(b, a);
    CompareIsExact(b, c);
    CompareIsExact(a, c);
    if CompareVersions(a, b) <= 0 && CompareVersions(b, c) <= 0 {
      Chain(a, b, c);
    }
  }

  lemma Chain(a: Version, b: Version, c: Version)
    requires (Same(a, b) || Precedes(a, b)) && (Same(b, c) || Precedes(b, c))
    ensures Same(a, b) && Same(b, c) ==> Same(a, c)
    ensures Precedes(a, b) || Precedes(b, c) ==> Precedes(a, c)
  {
    if Precedes(a, b) {
      var i: nat :| DiffersAt(a, b, i);
      if Same(b, c) {
        assert DiffersAt(a, c, i);
      } else {
        var j: nat :| DiffersAt(b, c, j);
        assert DiffersAt(a, c, if i < j then i else j);
      }
    } else if Precedes(b, c) {
      var j: nat :| DiffersAt(b, c, j);
      assert DiffersAt(a, c, j);
    }
  }

  function DropZeros(v: Version): Version
  {
    if v != [] && v[|v| - 1] == 0 then DropZeros(v[..|v| - 1]) else v
  }

  lemma {:induction false} DropZerosSame(v: Version)
    ensures Same(DropZeros(v), v)
    ensures var d := DropZeros(v); d != [] ==> d[|d| - 1] != 0
  {
    if v != [] && v[|v| - 1] == 0 {
      DropZerosSame(v[..|v| - 1]);
      forall i: nat ensures At(v[..|v| - 1], i) == At(v, i) {}
    }
  }

  /** Two versions are equal exactly when they match after dropping trailing zeros. */
  lemma EqualUpToTrailingZeros(a: Version, b: Version)
    ensures CompareVersions(a, b) == 0 <==> DropZeros(a) == DropZeros(b)
  {
    CompareIsExact(a, b);
    DropZerosSame(a);
    DropZerosSame(b);
    var p, q := DropZeros(a), DropZeros(b);
    if Same(a, b) {
      assert forall i: nat :: At(p, i) == At(a, i) && At(q, i) == At(b, i);
      if q != [] { assert At(q, |q| - 1) == At(p, |q| - 1); }
      if p != [] { assert At(p, |p| - 1) == At(q, |p| - 1); }
      forall i: nat | i < |p| ensures p[i] == q[i] { assert At(p, i) == At(q, i); }
    }
  }

  /** Appending `.0` to either side changes no comparison. */
  lemma AppendZero(a: Version, b: Version)
    ensures CompareVersions(a + [0], b) == CompareVersions(a, b)
    ensures CompareVersions(b, a + [0]) == CompareVersions(b, a)
  {
    forall i: nat ensures At(a + [0], i) == At(a, i) {}
    assert Same(a, a + [0]) && Same(a + [0], a);
    CompareIsExact(a, a + [0]);
    CompareIsTotalPreorder(a + [0], a, b);
    CompareIsTotalPreorder(a, a + [0], b);
    CompareIsTotalPreorder(b, a, a + [0]);
    CompareIsTotalPreorder(b, a + [0], a);
    CompareIsTotalPreorder(a, b, a);
    CompareIsTotalPreorder(a + [0], b, a);
    CompareIsExact(a, b);
    CompareIsExact(a + [0], b);
  }

  // ----- version_key -----

  /** `t.split(c)`. */
  function SplitOn(t: string, c: char): (r: seq<string>)
    ensures r != []
  {
    if t == "" then [""]
    else if t[0] == c then [""] + SplitOn(t[1..], c)
    else var r := SplitOn(t[1..], c); [[t[0]] + r[0]] + r[1..]
  }

  predicate Digits(t: string)
  {
    t != "" && forall i :: 0 <= i < |t| ==> '0' <= t[i] <= '9'
  }

  function Number(t: string): nat
    requires forall i :: 0 <= i < |t| ==> '0' <= t[i] <= '9'
  {
    if t == "" then 0 else 10 * Number(t[..|t| - 1]) + (t[|t| - 1] - '0') as int
  }

  function Numbers(parts: seq<string>): (r: Option<Version>)
    ensures r.Some? ==> |r.value| == |parts|
  {
    if parts == [] then Some([])
    else if !Digits(parts[0]) then None
    else match Numbers(parts[1..]) case None => None case Some(v) => Some([Number(parts[0])] + v)
  }

  /** Dotted numeric versions only; `None` stands for the refusal. */
  function VersionKey(text: string): Option<Version>
  {
    Numbers(SplitOn(text, '.'))
  }

  lemma {:induction false} SplitOnSnoc(t: string, c: char, u: string)
    requires c !in u
    ensures SplitOn(t + [c] + u, c) == SplitOn(t, c) + [u]
    decreases |t|
  {
    var all := t + [c] + u;
    if t == "" {
      assert all[1..] == u;
      SplitOnOne(u, c);
    } else {
      assert all[1..] == t[1..] + [c] + u;
      SplitOnSnoc(t[1..], c, u);
    }
  }

  lemma {:induction false} SplitOnOne(t: string, c: char)
    requires c !in t
    ensures SplitOn(t, c) == [t]
    decreases |t|
  {
    if t != "" {
      assert t[0] in t;
      SplitOnOne(t[1..], c);
      assert [t[0]] + t[1..] == t;
    }
  }

  lemma {:induction false} NumbersSnoc(parts: seq<string>)
    ensures Numbers(parts + ["0"])
         == (match Numbers(parts) case None => None case Some(v) => Some(v + [0]))
    decreases |parts|
  {
    var all := parts + ["0"];
    if parts == [] {
      assert all[1..] == [] && all[0] == "0" && Numbers([]) == Some([]);
      assert "0"[..0] == "" && Number("0") == 0;
      assert [0] + [] == [] + [0];
    } else {
      assert all[1..] == parts[1..] + ["0"] && all[0] == parts[0];
      NumbersSnoc(parts[1..]);
      if Digits(parts[0]) && Numbers(parts[1..]).Some? {
        var n, v := [Number(parts[0])], Numbers(parts[1..]).value;
        assert n + (v + [0]) == (n + v) + [0];
      }
    }
  }

  /** Writing `.0` after a version appends a zero to its key, and makes no version readable. */
  lemma KeyOfAppendedZero(text: string)
    ensures VersionKey(text + ".0") == (match VersionKey(text) case None => None case Some(v) => Some(v + [0]))
  {
    assert text + ".0" == text + ['.'] + "0";
    SplitOnSnoc(text, '.', "0");
    NumbersSnoc(SplitOn(text, '.'));
  }

  // ----- resolve_requirement -----

  datatype Refusal = MarkerOrExtra | BadForm | NotPinnedOnce | BadVersion | BadSpecifier | NotSatisfied
  datatype Resolution = Resolved(ref: string) | Refused(reason: Refusal)

  predicate NameChar(c: char)
  {
    'a' <= c <= 'z' || 'A' <= c <= 'Z' || '0' <= c <= '9' || c == '_' || c == '.' || c == '-'
  }

  function NameLen(t: string): (n: nat)
    ensures n <= |t|
    ensures forall i :: 0 <= i < n ==> NameChar(t[i])
  {
    if t != "" && NameChar(t[0]) then 1 + NameLen(t[1..]) else 0
  }

  function Lower(c: char): char
  {
    if 'A' <= c <= 'Z' then 'a' + (c - 'A') else c
  }

  /** Runs of `-`, `_`, `.` become one `-`; letters become lower case. */
  function Normalize(t: string): string
  {
    if t == "" then ""
    else if t[0] in "-_." then
      if |t| > 1 && t[1] in "-_." then Normalize(t[1..]) else "-" + Normalize(t[1..])
    else [Lower(t[0])] + Normalize(t[1..])
  }

  /** The name and the specifier text of a declaration. */
  function ParseRequirement(requirement: string): (r: Result<(string, string)>)
  {
    if ';' in requirement || '[' in requirement then Err(MarkerOrExtra) else
    var text := Strip(requirement);
    var n := NameLen(text);
    if n == 0 then Err(BadForm) else
    match Specifiers(Strip(text[n..]))
    case Err(e) => Err(e)
    case Ok(inner) => Ok((Normalize(text[..n]), inner))
  }

  /** The specifier text, with or without its parentheses. */
  function Specifiers(rest: string): Result<string>
  {
    var inner := if |rest| > 1 && rest[0] == '(' then Strip(rest[1..|rest| - 1]) else rest;
    if rest != "" && rest[0] == '(' && (rest[|rest| - 1] != ')' || inner == "") then Err(BadForm)
    else if '(' in inner || ')' in inner then Err(BadForm)
    else Ok(inner)
  }

  datatype Result<+T> = Ok(value: T) | Err(reason: Refusal)

  function Prefix(name: string): string
  {
    "pkg:pypi/" + name + "@"
  }

  function Pins(python: set<string>, name: string): set<string>
  {
    set ref | ref in python && Starts(ref, Prefix(name))
  }

  datatype Operator = Equal | AtLeast | AtMost | Above | Below

  /** Operator and its length at the start of a specifier. */
  function OperatorOf(t: string): (r: Option<(Operator, nat)>)
    ensures r.Some? ==> 1 <= r.value.1 <= |t|
  {
    if StartsPair(t, '=', '=') then Some((Equal, 2))
    else if StartsPair(t, '>', '=') then Some((AtLeast, 2))
    else if StartsPair(t, '<', '=') then Some((AtMost, 2))
    else if t != "" && t[0] == '>' then Some((Above, 1))
    else if t != "" && t[0] == '<' then Some((Below, 1))
    else None
  }

  predicate VersionText(t: string)
  {
    t != "" && forall i :: 0 <= i < |t| ==> '0' <= t[i] <= '9' || t[i] == '.'
  }

  /** Operator and version text of one comma-separated segment. */
  function ParseSegment(segment: string): Option<(Operator, string)>
  {
    var t := Strip(segment);
    match OperatorOf(t)
    case None => None
    case Some((op, n)) =>
      var version := Strip(t[n..]);
      if VersionText(version) then Some((op, version)) else None
  }

  predicate Satisfies(op: Operator, order: int)
  {
    match op
    case Equal => order == 0
    case AtLeast => order >= 0
    case AtMost => order <= 0
    case Above => order > 0
    case Below => order < 0
  }

  /** `None` when the pinned version passes the segment. */
  function CheckSegment(segment: string, pinned: Version): Option<Refusal>
  {
    match ParseSegment(segment)
    case None => Some(BadSpecifier)
    case Some((op, text)) =>
      match VersionKey(text)
      case None => Some(BadVersion)
      case Some(bound) => if Satisfies(op, CompareVersions(pinned, bound)) then None else Some(NotSatisfied)
  }

  function Segments(rest: string): seq<string>
  {
    if rest == "" then [] else SplitOn(rest, ',')
  }

  /** The declaration maps onto `ref`: its only pin, satisfying every specifier. */
  ghost predicate Accepts(requirement: string, python: set<string>, ref: string)
  {
    && ParseRequirement(requirement).Ok?
    && var (name, rest) := ParseRequirement(requirement).value;
    && Pins(python, name) == {ref}
    && Starts(ref, Prefix(name))
    && VersionKey(ref[|Prefix(name)|..]).Some?
    && forall s :: s in Segments(rest) ==> CheckSegment(s, VersionKey(ref[|Prefix(name)|..]).value) == None
  }

  /** The declaration deserves the refusal `reason`. */
  ghost predicate Deserves(requirement: string, python: set<string>, reason: Refusal)
  {
    match ParseRequirement(requirement)
    case Err(e) => reason == e
    case Ok((name, rest)) =>
      if reason == NotPinnedOnce then |Pins(python, name)| != 1
      else
        exists ref ::
          && Pins(python, name) == {ref} && Starts(ref, Prefix(name))
          && match VersionKey(ref[|Prefix(name)|..])
             case None => reason == BadVersion
             case Some(pinned) => exists s :: s in Segments(rest) && CheckSegment(s, pinned) == Some(reason)
  }

  /** The loop of `resolve_requirement` over the specifiers. */
  method CheckSegments(segments: seq<string>, pinned: Version) returns (refusal: Option<Refusal>)
    ensures refusal == None <==> forall s :: s in segments ==> CheckSegment(s, pinned) == None
    ensures refusal.Some? ==> exists s :: s in segments && CheckSegment(s, pinned) == refusal
  {
    for i := 0 to |segments|
      invariant forall k :: 0 <= k < i ==> CheckSegment(segments[k], pinned) == None
    {
      refusal := CheckSegment(segments[i], pinned);
      if refusal.Some? {
        assert segments[i] in segments;
        return;
      }
    }
    return None;
  }

  /** `resolve_requirement`: accepted exactly when it should be, refused only for a reason that holds. */
  method ResolveRequirement(requirement: string, python: set<string>) returns (r: Resolution)
    ensures forall ref :: r == Resolved(ref) <==> Accepts(requirement, python, ref)
    ensures r.Refused? ==> Deserves(requirement, python, r.reason)
  {
    match ParseRequirement(requirement) {
      case Err(reason) => return Refused(reason);
      case Ok((name, rest)) =>
        var pinned := Pins(python, name);
        if |pinned| != 1 {
          return Refused(NotPinnedOnce);
        }
        var ref :| ref in pinned;
        OnlyElement(pinned, ref);
        var resolved := VersionKey(ref[|Prefix(name)|..]);
        if resolved == None {
          return Refused(BadVersion);
        }
        var refusal := CheckSegments(Segments(rest), resolved.value);
        if refusal.Some? {
          return Refused(refusal.value);
        }
        return Resolved(ref);
    }
  }

  lemma OnlyElement<T>(s: set<T>, x: T)
    requires x in s && |s| == 1
    ensures s == {x}
  {
    assert |s - {x}| == 0;
  }

  // ----- `.0` on the pin never matters -----

  lemma CheckSegmentOfAppended(segment: string, pinned: Version)
    ensures CheckSegment(segment, pinned + [0]) == CheckSegment(segment, pinned)
  {
    match ParseSegment(segment)
    case None =>
    case Some((op, text)) =>
      match VersionKey(text)
      case None =>
      case Some(bound) => AppendZero(pinned, bound);
  }

  /** Appending `.0` to the pin changes no acceptance. */
  lemma AppendZeroToPin(requirement: string, others: set<string>, name: string, pin: string)
    requires Pins(others, name) == {}
    requires ParseRequirement(requirement).Ok? && ParseRequirement(requirement).value.0 == name
    ensures var ref := Prefix(name) + pin;
            Accepts(requirement, others + {ref}, ref) <==> Accepts(requirement, others + {ref + ".0"}, ref + ".0")
  {
    var ref := Prefix(name) + pin;
    var rest := ParseRequirement(requirement).value.1;
    OnePin(others, name, pin);
    OnePin(others, name, pin + ".0");
    assert Prefix(name) + (pin + ".0") == ref + ".0";
    KeyOfAppendedZero(pin);
    if VersionKey(pin).Some? {
      var v := VersionKey(pin).value;
      forall s | s in Segments(rest) ensures CheckSegment(s, v + [0]) == CheckSegment(s, v) {
        CheckSegmentOfAppended(s, v);
      }
    }
  }

  lemma OnePin(others: set<string>, name: string, pin: string)
    requires Pins(others, name) == {}
    ensures var ref := Prefix(name) + pin;
            Pins(others + {ref}, name) == {ref} && Starts(ref, Prefix(name)) && ref[|Prefix(name)|..] == pin
  {
    var ref := Prefix(name) + pin;
    assert Starts(ref, Prefix(name));
    assert Pins(others + {ref}, name) == Pins(others, name) + {ref};
  }
}
