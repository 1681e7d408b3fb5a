/** The loops of scripts/live_inventory.py, each proved against the function
    that specifies it. */
module LiveInventory {
  import opened Text
  import opened Balanced
  import opened RustLexer
  import opened Attributes
  import DeclaresTest
  import opened Definitions

  // ----- strip_noncode -----

  method ScanBlock(source: string, start: nat) returns (end: nat)
    requires start <= |source|
    ensures end == start + BlockLen(source[start..], 1)
  {
    var depth := 1;
    end := start;
    while end < |source| && depth > 0
      invariant start <= end <= |source|
      invariant end + BlockLen(source[end..], depth) == start + BlockLen(source[start..], 1)
    {
      assert source[end..][1..] == source[end + 1..];
      if StartsPair(source[end..], '/', '*') {
        assert source[end..][2..] == source[end + 2..];
        depth := depth + 1;
        end := end + 2;
      } else if StartsPair(source[end..], '*', '/') {
        assert source[end..][2..] == source[end + 2..];
        depth := depth - 1;
        end := end + 2;
      } else {
        end := end + 1;
      }
    }
  }

  method ScanString(source: string, start: nat) returns (end: nat)
    requires start <= |source|
    ensures end == start + StringLen(source[start..])
  {
    end := start;
    while end < |source|
      invariant start <= end <= |source| + 1
      invariant end <= |source| ==> end + StringLen(source[end..]) == start + StringLen(source[start..])
      invariant end > |source| ==> end == start + StringLen(source[start..])
    {
      assert source[end..][1..] == source[end + 1..];
      if source[end] == '\\' {
        if end + 2 <= |source| { assert source[end..][2..] == source[end + 2..]; }
        end := end + 2;
        continue;
      }
      if source[end] == '"' {
        end := end + 1;
        return;
      }
      end := end + 1;
    }
  }

  method ScanHashes(source: string, start: nat) returns (hashes: nat)
    requires start <= |source|
    ensures hashes == HashCount(source[start..])
  {
    var cursor := start;
    hashes := 0;
    while cursor < |source| && source[cursor] == '#'
      invariant start <= cursor <= |source| && hashes == cursor - start
      invariant hashes + HashCount(source[cursor..]) == HashCount(source[start..])
    {
      assert source[cursor..][1..] == source[cursor + 1..];
      hashes := hashes + 1;
      cursor := cursor + 1;
    }
  }

  method ScanRaw(source: string, index: nat) returns (end: Option<nat>)
    requires index < |source|
    ensures var n := RawLen(source[index..]); end == if n == 0 then None else Some(index + n)
  {
    var cursor := index;
    if source[cursor] == 'b' { cursor := cursor + 1; }
    if cursor >= |source| || source[cursor] != 'r' { return None; }
    cursor := cursor + 1;
    ghost var t, p := source[index..], cursor - index;
    assert p == RawPrefix(t) && t[p..] == source[cursor..];
    var hashes := ScanHashes(source, cursor);
    assert RawLen(t) == RawRest(t, p, hashes);
    end := ScanRawRest(source, index, cursor, hashes);
  }

  method ScanRawRest(source: string, index: nat, start: nat, hashes: nat) returns (end: Option<nat>)
    requires index < start <= start + hashes <= |source|
    ensures var n := RawRest(source[index..], start - index, hashes); end == if n == 0 then None else Some(index + n)
  {
    var cursor := start + hashes;
    if cursor >= |source| || source[cursor] != '"' { return None; }
    assert source[index..][cursor - index + 1..] == source[cursor + 1..];
    var found := Find(source[cursor + 1..], Terminator(hashes));
    match found {
      case None => end := Some(|source|);
      case Some(k) => end := Some(cursor + k + hashes + 2);
    }
  }

  /** The branches of `strip_noncode`: where the token at `index` ends, or
      `index` itself for a code character. */
  method ScanToken(source: string, index: nat) returns (end: nat)
    requires index < |source|
    ensures end == index + TokenLen(source[index..])
  {
    var t := source[index..];
    if StartsPair(t, '/', '/') {
      return index + LineLen(t);
    }
    if StartsPair(t, '/', '*') {
      assert t[2..] == source[index + 2..];
      end := ScanBlock(source, index + 2);
      return;
    }
    if source[index] == 'r' || source[index] == 'b' {
      var raw := ScanRaw(source, index);
      if raw.Some? { return raw.value; }
    }
    if source[index] == '"' {
      assert t[1..] == source[index + 1..];
      end := ScanString(source, index + 1);
      return;
    }
    if source[index] == '\'' {
      return index + CharLen(t);
    }
    return index;
  }

  /** The loop of `strip_noncode`. */
  method StripNoncodeLoop(source: string) returns (out: string)
    ensures out == StripNoncode(source)
  {
    out := "";
    var index := 0;
    assert source[0..] == source;
    while index < |source|
      invariant Progress(source, out, index)
      decreases |source| - index
    {
      var end := ScanToken(source, index);
      if end == index {
        CodeStep(source, out, index);
        out := out + [source[index]];
        index := index + 1;
      } else if end < |source| {
        TokenStep(source, out, index, end);
        out := out + Blanks(source[index..end]);
        index := end;
      } else {
        LastStep(source, out, index, end);
        out := out + Blanks(source[index..]);
        index := end;
      }
    }
  }

  // ----- flatten_attributes and top_level_parts -----

  /** One attribute, newlines overwritten in place; `cursor` stops at its closing bracket. */
  method FlattenAttribute(code: string, index: nat, before: string) returns (out: string, cursor: nat)
    requires index + 1 < |code| && FlattenedTo(code, before, index)
    ensures cursor == index + 1 + AttributeLen(code[index + 1..])
    ensures Overwritten(code, before, out, index, cursor)
  {
    out := before;
    var depth := 0;
    cursor := index + 1;
    assert forall k :: index <= k < |code| ==> before[k] == before[index..][k - index];
    while cursor < |code|
      invariant index + 1 <= cursor && Overwritten(code, before, out, index, cursor)
      invariant index + 1 + AttributeLen(code[index + 1..]) == cursor + BracketLen(code[cursor..], depth)
    {
      assert code[cursor..][1..] == code[cursor + 1..];
      BracketStep(code[cursor..], depth);
      if code[cursor] == '[' {
        depth := depth + 1;
      } else if code[cursor] == ']' {
        depth := depth - 1;
        if depth == 0 { return; }
      } else if code[cursor] == '\n' {
        out := out[cursor := ' '];
      }
      cursor := cursor + 1;
    }
  }

  /** The loop of `flatten_attributes`. */
  method FlattenLoop(code: string) returns (out: string)
    ensures Flattened(code, out)
  {
    out := code;
    var index := 0;
    FlattenStarts(code);
    while index < |code|
      invariant FlattenedTo(code, out, index)
      decreases |code| - index
    {
      out, index := FlattenTurn(code, out, index);
    }
    AllFlattened(code, out, index);
  }

  /** One turn of the loop: past an attribute, or past one character. */
  method FlattenTurn(code: string, before: string, index: nat) returns (out: string, next: nat)
    requires index < |code| && FlattenedTo(code, before, index)
    ensures next > index && FlattenedTo(code, out, next)
  {
    if StartsPair(code[index..], '#', '[') {
      out, next := PassAttribute(code, before, index);
    } else {
      FlatteningPlain(code, before, index);
      out, next := before, index + 1;
    }
  }

  method PassAttribute(code: string, before: string, index: nat) returns (out: string, next: nat)
    requires index < |code| && FlattenedTo(code, before, index) && StartsPair(code[index..], '#', '[')
    ensures next > index && FlattenedTo(code, out, next)
  {
    var cursor;
    out, cursor := FlattenAttribute(code, index, before);
    hide AttributeLen, Overwritten, FlattenedTo;
    FlatteningAttribute(code, before, out, index, cursor);
    next := cursor + 1;
  }

  /** The loop of `top_level_parts`. */
  method TopLevelParts(arguments: string) returns (parts: seq<string>)
    ensures parts == Split(arguments, 0)
  {
    parts := [];
    var depth := 0;
    var current := "";
    SplittingStarts(arguments);
    for i := 0 to |arguments|
      invariant Splitting(arguments, i, depth, parts, current)
    {
      var c := arguments[i];
      if c == ',' && depth == 0 {
        SplittingComma(arguments, i, parts, current);
      } else {
        SplittingOther(arguments, i, depth, parts, current);
      }
      if c in "([{" {
        depth := depth + 1;
      } else if c in ")]}" {
        depth := depth - 1;
      }
      if c == ',' && depth == 0 {
        parts := parts + [current];
        current := "";
      } else {
        current := current + [c];
      }
    }
    SplittingEnds(arguments, depth, parts, current);
    parts := parts + [current];
  }

  // ----- cfg_attr_arguments -----

  /** The loop of `cfg_attr_arguments` that reads one argument. */
  method ReadArgument(attributes: string, start: nat) returns (argument: string)
    requires start <= |attributes|
    ensures DeclaresTest.IsArgument(attributes, start, argument)
  {
    var depth, index := 1, start;
    ghost var goal := CloseAt(attributes[start..], '(', ')', 1);
    while index < |attributes| && depth > 0
      invariant start <= index <= |attributes| && depth >= 1
      invariant goal == (match CloseAt(attributes[index..], '(', ')', depth)
                         case None => None
                         case Some(k) => Some(index - start + k))
    {
      assert attributes[index..][1..] == attributes[index + 1..];
      if attributes[index] == '(' {
        depth := depth + 1;
      } else if attributes[index] == ')' {
        depth := depth - 1;
        if depth == 0 {
          assert goal == Some(index - start);
          assert attributes[start..][..index - start] == attributes[start..index];
          return attributes[start..index];
        }
      }
      index := index + 1;
    }
    assert goal == None;
    argument := attributes[start..index];
  }

  method FindMatch(attributes: string, index: nat) returns (n: nat)
    requires index < |attributes|
    ensures index + n <= |attributes| && DeclaresTest.MatchesAt(attributes, index, n)
  {
    n := DeclaresTest.CfgStart(attributes[index..]);
    DeclaresTest.CfgUnfolds(attributes[index..]);
    SuffixSlices(attributes, index, index + 1);
    SuffixSlices(attributes, index, index + n);
  }

  /** `cfg_attr_arguments`: one argument per match, resuming after the opening parenthesis. */
  method CfgAttrArguments(attributes: string) returns (found: seq<string>)
    ensures found == DeclaresTest.CfgArguments(attributes)
  {
    found := [];
    var index := 0;
    assert attributes[0..] == attributes;
    while index < |attributes|
      invariant DeclaresTest.Reading(attributes, found, index)
      decreases |attributes| - index
    {
      var n := FindMatch(attributes, index);
      if n == 0 {
        DeclaresTest.ReadingSkip(attributes, found, index);
        index := index + 1;
      } else {
        var argument := ReadArgument(attributes, index + n);
        DeclaresTest.ReadingMatch(attributes, found, index, n, argument);
        found := found + [argument];
        index := index + n;
      }
    }
    DeclaresTest.LastRead(attributes, found);
  }

  // ----- definitions and _annotated_tests -----

  /** The inner loop of `definitions`: up over the lines of attributes above `start`. */
  method WalkUp(code: string, start: nat) returns (cursor: nat)
    requires start <= |code|
    ensures cursor == Walk(code[..start])
  {
    cursor := start;
    while cursor > 0
      invariant Walking(code, start, cursor)
    {
      var previousEnd := if code[cursor - 1] == '\n' then cursor - 1 else cursor;
      var previousStart := LineStart(code[..previousEnd]);
      WalkTurn(code, start, cursor, previousEnd, previousStart);
      if !Passable(code[previousStart..previousEnd]) { return; }
      cursor := previousStart;
    }
  }

  /** One match of `definitions`, with the attributes collected for it. */
  method Define(code: string, m: Match) returns (d: Definition)
    requires Within(code, m)
    ensures d == DefinitionOf(code, m)
  {
    var cursor := WalkUp(code, m.start);
    d := Definition(m.name, code[cursor..m.inlineStart], code[m.inlineStart..m.inlineEnd], cursor, m.inlineEnd);
  }

  /** `definitions`: the search for functions, resuming where a match ends. */
  method FindDefinitions(code: string) returns (found: seq<Definition>)
    ensures found == DefinitionsIn(code)
  {
    found := [];
    var index := 0;
    DefiningStarts(code);
    while index < |code|
      invariant Defining(code, found, index)
      decreases |code| - index
    {
      found, index := DefineTurn(code, found, index);
    }
    AllDefined(code, found);
  }

  method DefineTurn(code: string, found: seq<Definition>, index: nat) returns (more: seq<Definition>, next: nat)
    requires index < |code| && Defining(code, found, index)
    ensures next > index && Defining(code, more, next)
  {
    var m := MatchAt(code, index);
    if m == None {
      DefiningSkip(code, found, index);
      return found, index + 1;
    }
    var d := Define(code, m.value);
    DefiningMatch(code, found, index, d);
    return found + [d], m.value.end;
  }

  /** `_annotated_tests`: mask, flatten, find the functions, keep the tests. */
  method AnnotatedTests(source: string, isIdentifier: string -> bool) returns (names: seq<string>)
    ensures names == TestNames(Flatten(StripNoncode(source)), isIdentifier)
  {
    var masked := StripNoncodeLoop(source);
    var code := FlattenLoop(masked);
    var ds := FindDefinitions(code);
    names := KeepTests(ds, d => IsTestDefinition(d, isIdentifier));
  }

  method KeepTests(ds: seq<Definition>, test: Definition -> bool) returns (names: seq<string>)
    ensures names == NamesWhere(ds, test)
  {
    names := [];
    for i := 0 to |ds|
      invariant names == NamesWhere(ds[..i], test)
    {
      PrefixSnoc(ds, i);
      NamesSnoc(ds[..i], ds[i], test);
      if test(ds[i]) { names := names + [ds[i].name]; }
    }
    WholePrefix(ds);
  }
}
