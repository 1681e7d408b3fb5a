/** Attribute reading of scripts/live_inventory.py: `flatten_attributes`,
    `top_level_parts` and `cfg_attr_arguments`. */
module Attributes {
  import opened Text
  import opened Balanced
  import opened RustLexer

  // ----- flatten_attributes -----

  function FlatChar(c: char): char
  {
    if c == '\n' then ' ' else c
  }

  function Flat(t: string): (r: string)
    ensures |r| == |t|
    ensures forall i :: 0 <= i < |t| ==> r[i] == FlatChar(t[i])
  {
    seq(|t|, i requires 0 <= i < |t| => FlatChar(t[i]))
  }

  /** Characters up to the bracket that closes `depth` open ones, or to the end. */
  function BracketLen(t: string, depth: int): (n: nat)
    ensures n <= |t|
  {
    match CloseAt(t, '[', ']', depth) case None => |t| case Some(k) => k
  }

  lemma BracketStep(t: string, depth: int)
    requires t != ""
    ensures t[0] == '[' ==> BracketLen(t, depth) == 1 + BracketLen(t[1..], depth + 1)
    ensures t[0] == ']' && depth == 1 ==> BracketLen(t, depth) == 0
    ensures t[0] == ']' && depth != 1 ==> BracketLen(t, depth) == 1 + BracketLen(t[1..], depth - 1)
    ensures t[0] != '[' && t[0] != ']' ==> BracketLen(t, depth) == 1 + BracketLen(t[1..], depth)
  {}

  /** Characters of the attribute whose bracket is first in `t`, closing bracket excluded. */
  function AttributeLen(t: string): (n: nat)
    ensures n <= |t|
  {
    BracketLen(t, 0)
  }

  function Flatten(t: string): (r: string)
    ensures |r| == |t|
    decreases |t|
  {
    if t == "" then ""
    else if StartsPair(t, '#', '[') then
      var n := 1 + AttributeLen(t[1..]);
      if n == |t| then Flat(t) else Flat(t[..n + 1]) + Flatten(t[n + 1..])
    else [t[0]] + Flatten(t[1..])
  }

  /** Only newlines change, and only into spaces. */
  lemma {:induction false} FlattenKeepsPositions(t: string, k: nat)
    requires k < |t|
    ensures Flatten(t)[k] == t[k] || (Flatten(t)[k] == ' ' && t[k] == '\n')
    decreases |t|
  {
    if StartsPair(t, '#', '[') {
      var n := 1 + AttributeLen(t[1..]);
      if n < |t| && k > n { FlattenKeepsPositions(t[n + 1..], k - n - 1); }
    } else if k > 0 {
      FlattenKeepsPositions(t[1..], k - 1);
    }
  }

  /** The text the inventories are read from has the offsets of the source:
      `flatten_attributes(strip_noncode(s))` holds `s[k]` or a space at `k`. */
  lemma MaskedTextKeepsOffsets(s: string)
    ensures |Flatten(StripNoncode(s))| == |s|
    ensures forall k :: 0 <= k < |s| ==> Flatten(StripNoncode(s))[k] == s[k] || Flatten(StripNoncode(s))[k] == ' '
  {
    var code := StripNoncode(s);
    StripKeepsPositions(s);
    forall k | 0 <= k < |s|
      ensures Flatten(code)[k] == s[k] || Flatten(code)[k] == ' '
    {
      FlattenKeepsPositions(code, k);
    }
  }

  lemma {:induction false} CloseAtIgnoresOthers(u: string, v: string, open: char, close: char, depth: int)
    requires |u| == |v|
    requires forall i :: 0 <= i < |u| ==>
      u[i] == v[i] || (u[i] != open && u[i] != close && v[i] != open && v[i] != close)
    ensures CloseAt(u, open, close, depth) == CloseAt(v, open, close, depth)
  {
    if u != "" {
      assert u[0] == v[0] || (u[0] != open && u[0] != close && v[0] != open && v[0] != close);
      var d := if u[0] == open then 1 else if u[0] == close then -1 else 0;
      forall i | 0 <= i < |u[1..]|
        ensures u[1..][i] == v[1..][i]
             || (u[1..][i] != open && u[1..][i] != close && v[1..][i] != open && v[1..][i] != close)
      {
        assert u[1..][i] == u[i + 1] && v[1..][i] == v[i + 1];
      }
      CloseAtIgnoresOthers(u[1..], v[1..], open, close, depth + d);
    }
  }

  /** An attribute with balanced brackets is flattened, up to its own bracket and no further. */
  lemma FlattenOneAttribute(w: Word, rest: string)
    requires PlainOnly(w, '[', ']')
    ensures var a := "#[" + Print(w, '[', ']') + "]";
            Flatten(a + rest) == Flat(a) + Flatten(rest)
  {
    var p := Print(w, '[', ']');
    var t := "#[" + p + "]" + rest;
    assert t[1..] == ['['] + (p + [']'] + rest);
    assert t[1..][1..] == p + [']'] + rest;
    ScanRecoversWord(w, '[', ']', rest);
    assert AttributeLen(t[1..]) == |p| + 1;
    var n := |p| + 2;
    assert t[..n + 1] == "#[" + p + "]" && t[n + 1..] == rest;
    if n + 1 == |t| { assert rest == "" && Flat(t) == Flat("#[" + p + "]") + Flatten(rest); }
  }

  /** Flattening twice is flattening once. */
  lemma {:induction false} FlattenIsIdempotent(t: string)
    ensures Flatten(Flatten(t)) == Flatten(t)
    decreases |t|
  {
    var out := Flatten(t);
    if t != "" {
      forall k | 0 <= k < |t| ensures out[k] == t[k] || (out[k] == ' ' && t[k] == '\n') {
        FlattenKeepsPositions(t, k);
      }
      if StartsPair(t, '#', '[') {
        CloseAtIgnoresOthers(out[1..], t[1..], '[', ']', 0);
        var n := 1 + AttributeLen(t[1..]);
        if n < |t| {
          assert out[..n + 1] == Flat(t[..n + 1]) && out[n + 1..] == Flatten(t[n + 1..]);
          FlattenIsIdempotent(t[n + 1..]);
          assert Flat(out[..n + 1]) == out[..n + 1];
        } else {
          assert Flat(out) == out;
        }
      } else {
        assert out[1..] == Flatten(t[1..]);
        FlattenIsIdempotent(t[1..]);
      }
    }
  }

  /** The list is flattened before `index` and untouched from there on. */
  ghost predicate Flattening(code: string, out: string, index: nat)
  {
    && index <= |code| == |out| && out[index..] == code[index..]
    && Flatten(code) == out[..index] + Flatten(code[index..])
  }

  ghost predicate Flattened(code: string, out: string)
  {
    out == Flatten(code)
  }

  /** `out` is `before` with the newlines between `index` and `cursor` overwritten. */
  ghost predicate Overwritten(code: string, before: string, out: string, index: nat, cursor: nat)
  {
    && index < cursor <= |code| == |before| == |out|
    && (forall k :: 0 <= k <= index ==> out[k] == before[k])
    && (forall k :: index < k < cursor ==> out[k] == FlatChar(code[k]))
    && (forall k :: cursor <= k < |code| ==> out[k] == code[k])
  }

  lemma FlattenPlainAt(code: string, i: nat)
    requires i < |code| && !StartsPair(code[i..], '#', '[')
    ensures Flatten(code[i..]) == [code[i]] + Flatten(code[i + 1..])
  {
    SuffixSlices(code, i, i + 1);
  }

  /** An attribute and what follows it. */
  lemma FlattenUnfolds(t: string, head: string, tail: string)
    requires StartsPair(t, '#', '[') && t == head + tail && |head| == 2 + AttributeLen(t[1..])
    ensures t[|head| - 1] == ']' && Flatten(t) == Flat(head) + Flatten(tail)
  {
    assert t[..|head|] == head && t[|head|..] == tail;
    AtCloser(t[1..]);
  }

  lemma FlattenAttributeAt(code: string, i: nat, cursor: nat)
    requires i < |code| && StartsPair(code[i..], '#', '[') && cursor == i + 1 + AttributeLen(code[i + 1..])
    ensures cursor < |code| ==>
      code[cursor] == ']' && Flatten(code[i..]) == Flat(code[i..cursor + 1]) + Flatten(code[cursor + 1..])
    ensures cursor == |code| ==> Flatten(code[i..]) == Flat(code[i..])
  {
    SuffixSlices(code, i, i + 1);
    if cursor < |code| {
      SplitSuffix(code, i, cursor + 1);
      FlattenUnfolds(code[i..], code[i..cursor + 1], code[cursor + 1..]);
    }
  }

  lemma FlatteningPlain(code: string, out: string, index: nat)
    requires index < |code| && FlattenedTo(code, out, index) && !StartsPair(code[index..], '#', '[')
    ensures FlattenedTo(code, out, index + 1)
  {
    FlattenPlainAt(code, index);
    Assoc(out[..index], [code[index]], Flatten(code[index + 1..]));
    KeptPrefix(code, out, index);
  }

  lemma KeptPrefix(code: string, out: string, index: nat)
    requires index < |code| == |out| && out[index..] == code[index..]
    ensures out[..index + 1] == out[..index] + [code[index]] && out[index + 1..] == code[index + 1..]
  {
    assert out[index] == out[index..][0] == code[index];
    SuffixSlices(out, index, index + 1);
    SuffixSlices(code, index, index + 1);
  }

  lemma WrittenPrefix(code: string, before: string, out: string, index: nat, cursor: nat)
    requires Overwritten(code, before, out, index, cursor) && before[index..] == code[index..] && code[index] == '#'
    ensures cursor < |code| && code[cursor] == ']' ==>
      out[..cursor + 1] == before[..index] + Flat(code[index..cursor + 1]) && out[cursor + 1..] == code[cursor + 1..]
    ensures cursor == |code| ==> out == before[..index] + Flat(code[index..])
  {
    assert before[index] == before[index..][0] == code[index];
  }

  lemma FlatteningAttribute(code: string, before: string, out: string, index: nat, cursor: nat)
    requires index < |code| && FlattenedTo(code, before, index) && StartsPair(code[index..], '#', '[')
    requires cursor == index + 1 + AttributeLen(code[index + 1..]) && Overwritten(code, before, out, index, cursor)
    ensures FlattenedTo(code, out, cursor + 1)
  {
    FlattenAttributeAt(code, index, cursor);
    assert code[index] == code[index..][0];
    WrittenPrefix(code, before, out, index, cursor);
    if cursor < |code| { Assoc(before[..index], Flat(code[index..cursor + 1]), Flatten(code[cursor + 1..])); }
  }

  /** `index` jumps past the end after an attribute that is never closed. */
  ghost predicate FlattenedTo(code: string, out: string, index: nat)
  {
    if index <= |code| then Flattening(code, out, index) else Flattened(code, out)
  }

  lemma FlattenStarts(code: string)
    ensures FlattenedTo(code, code, 0)
  {
    assert code[0..] == code && code[..0] == "";
  }

  lemma AllFlattened(code: string, out: string, index: nat)
    requires index >= |code| && FlattenedTo(code, out, index)
    ensures Flattened(code, out)
  {
    if index == |code| {
      assert code[|code|..] == "" && out[..|code|] == out;
      assert out[..|code|] + "" == out;
    }
  }

  lemma AtCloser(t: string)
    requires AttributeLen(t) < |t|
    ensures t[AttributeLen(t)] == ']'
  {
    if CloseAt(t, '[', ']', 0).Some? { CloserAtEnd(t, '[', ']', 0); }
  }

  // ----- top_level_parts -----

  function Nesting(c: char): int
  {
    if c in "([{" then 1 else if c in ")]}" then -1 else 0
  }

  function Net(t: string): int
  {
    if t == "" then 0 else Nesting(t[0]) + Net(t[1..])
  }

  /** `top_level_parts`, entered at nesting `depth`: split at the commas of level zero. */
  function Split(t: string, depth: int): (parts: seq<string>)
    ensures parts != []
  {
    if t == "" then [""]
    else if t[0] == ',' && depth == 0 then [""] + Split(t[1..], 0)
    else Prepend([t[0]], Split(t[1..], depth + Nesting(t[0])))
  }

  function Prepend(t: string, parts: seq<string>): seq<string>
    requires parts != []
  {
    [t + parts[0]] + parts[1..]
  }

  /** No comma of `t`, entered at nesting `depth`, is at level zero. */
  predicate NoTopComma(t: string, depth: int)
  {
    t != "" ==> !(t[0] == ',' && depth == 0) && NoTopComma(t[1..], depth + Nesting(t[0]))
  }

  /** Parts that can stand side by side: no level-zero comma inside a part, and
      every part but the last leaves the nesting where it found it. */
  predicate Separable(parts: seq<string>)
  {
    && parts != []
    && NoTopComma(parts[0], 0)
    && (|parts| > 1 ==> Net(parts[0]) == 0 && Separable(parts[1..]))
  }

  /** Joining the parts gives back every text. */
  lemma {:induction false} JoinSplit(t: string, depth: int)
    ensures Join(Split(t, depth)) == t
    decreases |t|
  {
    if t != "" {
      if t[0] == ',' && depth == 0 {
        var r := Split(t[1..], 0);
        JoinSplit(t[1..], 0);
        assert ([""] + r)[1..] == r;
        assert t == "" + "," + t[1..];
      } else {
        var r := Split(t[1..], depth + Nesting(t[0]));
        JoinSplit(t[1..], depth + Nesting(t[0]));
        JoinPrepend([t[0]], r);
        assert t == [t[0]] + t[1..];
      }
    }
  }

  lemma PrependNothing(parts: seq<string>)
    requires parts != []
    ensures Prepend("", parts) == parts
  {
    assert "" + parts[0] == parts[0];
  }

  lemma PrependTwice(w: string, parts: seq<string>)
    requires w != "" && parts != []
    ensures Prepend([w[0]], Prepend(w[1..], parts)) == Prepend(w, parts)
  {
    assert w == [w[0]] + w[1..];
    Assoc([w[0]], w[1..], parts[0]);
  }

  lemma JoinPrepend(t: string, parts: seq<string>)
    requires parts != []
    ensures Join(Prepend(t, parts)) == t + Join(parts)
  {
    if |parts| > 1 {
      assert Prepend(t, parts)[1..] == parts[1..];
      assert t + parts[0] + "," + Join(parts[1..]) == t + (parts[0] + "," + Join(parts[1..]));
    }
  }

  /** A stretch without level-zero commas stays in one part. */
  lemma {:induction false} SplitSkips(w: string, t: string, depth: int)
    requires NoTopComma(w, depth)
    ensures Split(w + t, depth) == Prepend(w, Split(t, depth + Net(w)))
    decreases |w|
  {
    if w == "" {
      assert w + t == t;
      PrependNothing(Split(t, depth));
    } else {
      var d := depth + Nesting(w[0]);
      assert (w + t)[1..] == w[1..] + t;
      SplitSkips(w[1..], t, d);
      PrependTwice(w, Split(t, d + Net(w[1..])));
    }
  }

  lemma {:induction false} SplitJoin(parts: seq<string>)
    requires Separable(parts)
    ensures Split(Join(parts), 0) == parts
    decreases |parts|
  {
    var p := parts[0];
    if |parts| == 1 {
      assert p + "" == p;
      SplitSkips(p, "", 0);
      assert Split(p, 0) == Prepend(p, [""]) == [p];
    } else {
      var rest := Join(parts[1..]);
      assert p + "," + rest == p + ("," + rest);
      SplitSkips(p, "," + rest, 0);
      assert ("," + rest)[1..] == rest;
      SplitJoin(parts[1..]);
      assert Prepend(p, [""] + parts[1..]) == parts;
    }
  }

  /** What the splitter returns can be joined without ambiguity, provided the
      first part is entered at `depth`. */
  lemma {:induction false} SplitIsSeparable(t: string, depth: int)
    ensures var r := Split(t, depth);
            && NoTopComma(r[0], depth)
            && (|r| > 1 ==> depth + Net(r[0]) == 0 && Separable(r[1..]))
    decreases |t|
  {
    if t != "" {
      if t[0] == ',' && depth == 0 {
        SplitIsSeparable(t[1..], 0);
        assert ([""] + Split(t[1..], 0))[1..] == Split(t[1..], 0);
      } else {
        var d := depth + Nesting(t[0]);
        var r := Split(t[1..], d);
        SplitIsSeparable(t[1..], d);
        assert ([t[0]] + r[0])[1..] == r[0];
        assert Prepend([t[0]], r)[1..] == r[1..];
      }
    }
  }

  /** `top_level_parts` undoes comma-joining exactly on separable part lists. */
  lemma SplitUndoesJoinExactly(parts: seq<string>)
    requires parts != []
    ensures Split(Join(parts), 0) == parts <==> Separable(parts)
  {
    if Separable(parts) { SplitJoin(parts); }
    if Split(Join(parts), 0) == parts { SplitIsSeparable(Join(parts), 0); }
  }

  /** The parts read so far, the part being read, and what is left, make up the answer. */
  ghost predicate Splitting(arguments: string, i: nat, depth: int, parts: seq<string>, current: string)
  {
    i <= |arguments| && Split(arguments, 0) == parts + Prepend(current, Split(arguments[i..], depth))
  }

  lemma SplittingStarts(arguments: string)
    ensures Splitting(arguments, 0, 0, [], "")
  {
    assert arguments[0..] == arguments;
    PrependNothing(Split(arguments, 0));
  }

  lemma SplittingComma(arguments: string, i: nat, parts: seq<string>, current: string)
    requires i < |arguments| && arguments[i] == ',' && Splitting(arguments, i, 0, parts, current)
    ensures Splitting(arguments, i + 1, 0, parts + [current], "")
  {
    var r := Split(arguments[i + 1..], 0);
    assert arguments[i..][1..] == arguments[i + 1..];
    assert Split(arguments[i..], 0) == [""] + r;
    PrependNothing(r);
    assert current + "" == current;
    assert Prepend(current, [""] + r) == [current] + r;
    Assoc(parts, [current], r);
  }

  lemma SplittingOther(arguments: string, i: nat, depth: int, parts: seq<string>, current: string)
    requires i < |arguments| && !(arguments[i] == ',' && depth == 0) && Splitting(arguments, i, depth, parts, current)
    ensures Splitting(arguments, i + 1, depth + Nesting(arguments[i]), parts, current + [arguments[i]])
  {
    var c := arguments[i];
    var r := Split(arguments[i + 1..], depth + Nesting(c));
    assert arguments[i..][1..] == arguments[i + 1..];
    assert Split(arguments[i..], depth) == Prepend([c], r);
    Assoc(current, [c], r[0]);
    assert Prepend(current, Prepend([c], r)) == Prepend(current + [c], r);
  }

  lemma SplittingEnds(arguments: string, depth: int, parts: seq<string>, current: string)
    requires Splitting(arguments, |arguments|, depth, parts, current)
    ensures Split(arguments, 0) == parts + [current]
  {
    assert arguments[|arguments|..] == "";
    assert current + "" == current;
    assert Prepend(current, [""]) == [current];
  }
}
