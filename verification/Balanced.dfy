/** The balanced-delimiter loops of scripts/live_inventory.py, scripts/code_size.py,
    scripts/check_relational_ir.py and scripts/render_state.py, against one
    specification (the least closing position) and a grammar of balanced words. */
module Balanced {
  import opened Text

  /** Openers minus closers. */
  function Depth(t: string, open: char, close: char): int
  {
    if t == "" then 0
    else (if t[0] == open then 1 else if t[0] == close then -1 else 0) + Depth(t[1..], open, close)
  }

  /** First closer in `t` at which the running depth, started at `depth`, becomes zero. */
  function CloseAt(t: string, open: char, close: char, depth: int): (r: Option<nat>)
    ensures r.Some? ==> r.value < |t|
  {
    if t == "" then None
    else if t[0] == open then Shift(CloseAt(t[1..], open, close, depth + 1))
    else if t[0] == close then
      if depth == 1 then Some(0) else Shift(CloseAt(t[1..], open, close, depth - 1))
    else Shift(CloseAt(t[1..], open, close, depth))
  }

  function Shift(r: Option<nat>): Option<nat>
  {
    match r case None => None case Some(k) => Some(k + 1)
  }

  /** Position `k` closes the text: a closer that brings the depth to zero. */
  predicate Closes(t: string, open: char, close: char, depth: int, k: nat)
  {
    k < |t| && t[k] == close && depth + Depth(t[..k + 1], open, close) == 0
  }

  /** `CloseAt` is the least closing position, and `None` exactly when there is none. */
  lemma {:induction false} CloseAtIsLeast(t: string, open: char, close: char, depth: int)
    requires open != close
    ensures var r := CloseAt(t, open, close, depth);
            && (r.Some? ==> Closes(t, open, close, depth, r.value))
            && (forall k: nat :: Closes(t, open, close, depth, k) ==> r.Some? && r.value <= k)
  {
    if t != "" {
      var d := if t[0] == open then 1 else if t[0] == close then -1 else 0;
      CloseAtIsLeast(t[1..], open, close, depth + d);
      var rest := CloseAt(t[1..], open, close, depth + d);
      forall k: nat | k < |t|
        ensures Depth(t[..k + 1], open, close) == d + Depth(t[1..][..k], open, close)
      {
        assert t[..k + 1][1..] == t[1..][..k];
      }
      assert Depth("", open, close) == 0;
      assert t[1..][..0] == "";
      forall k: nat | Closes(t, open, close, depth, k)
        ensures CloseAt(t, open, close, depth).Some? && CloseAt(t, open, close, depth).value <= k
      {
        if k > 0 { assert Closes(t[1..], open, close, depth + d, k - 1); }
      }
      if rest.Some? {
        assert Closes(t[1..], open, close, depth + d, rest.value);
      }
    }
  }

  /** Balanced words: the Dyck grammar with plain characters in between. */
  datatype Word = Empty | Plain(c: char, rest: Word) | Group(inner: Word, after: Word)

  function Print(w: Word, open: char, close: char): string
  {
    match w
    case Empty => ""
    case Plain(c, rest) => [c] + Print(rest, open, close)
    case Group(inner, after) => [open] + Print(inner, open, close) + [close] + Print(after, open, close)
  }

  predicate PlainOnly(w: Word, open: char, close: char)
  {
    match w
    case Empty => true
    case Plain(c, rest) => c != open && c != close && PlainOnly(rest, open, close)
    case Group(inner, after) => PlainOnly(inner, open, close) && PlainOnly(after, open, close)
  }

  /** A balanced word is invisible to the scan: it is skipped whatever follows it. */
  lemma {:induction false} ScanSkipsWord(w: Word, open: char, close: char, t: string, depth: int)
    requires open != close && PlainOnly(w, open, close) && depth >= 1
    ensures CloseAt(Print(w, open, close) + t, open, close, depth)
         == (match CloseAt(t, open, close, depth)
             case None => None
             case Some(k) => Some(|Print(w, open, close)| + k))
  {
    var p := Print(w, open, close);
    match w
    case Empty =>
      assert p + t == t;
    case Plain(c, rest) =>
      assert (p + t)[1..] == Print(rest, open, close) + t;
      ScanSkipsWord(rest, open, close, t, depth);
    case Group(inner, after) =>
      var i, a := Print(inner, open, close), Print(after, open, close);
      assert (p + t)[1..] == i + ([close] + (a + t));
      ScanSkipsWord(inner, open, close, [close] + (a + t), depth + 1);
      assert ([close] + (a + t))[1..] == a + t;
      ScanSkipsWord(after, open, close, t, depth);
  }

  /** The scan recovers any balanced word exactly from word + closer + rest. */
  lemma ScanRecoversWord(w: Word, open: char, close: char, rest: string)
    requires open != close && PlainOnly(w, open, close)
    ensures CloseAt(Print(w, open, close) + [close] + rest, open, close, 1) == Some(|Print(w, open, close)|)
  {
    assert Print(w, open, close) + [close] + rest == Print(w, open, close) + ([close] + rest);
    ScanSkipsWord(w, open, close, [close] + rest, 1);
  }

  /** Conversely, whatever the scan returns is a balanced word. */
  lemma {:induction false} ScanReturnsWord(t: string, open: char, close: char) returns (w: Word)
    requires open != close && CloseAt(t, open, close, 1).Some?
    ensures PlainOnly(w, open, close)
    ensures Print(w, open, close) == t[..CloseAt(t, open, close, 1).value]
    decreases |t|
  {
    var k := CloseAt(t, open, close, 1).value;
    if t[0] == close {
      w := Empty;
    } else if t[0] == open {
      SplitDeeper(t[1..], open, close, 1);
      var m := CloseAt(t[1..], open, close, 1).value;
      var inner := ScanReturnsWord(t[1..], open, close);
      assert t[1..][m + 1..] == t[m + 2..];
      var after := ScanReturnsWord(t[m + 2..], open, close);
      w := Group(inner, after);
      CloserAtEnd(t[1..], open, close, 1);
      GroupText(t, m, CloseAt(t[m + 2..], open, close, 1).value);
    } else {
      var rest := ScanReturnsWord(t[1..], open, close);
      w := Plain(t[0], rest);
      assert t[..k] == [t[0]] + t[1..][..k - 1];
    }
  }

  lemma GroupText(t: string, m: nat, n: nat)
    requires m + 2 + n <= |t|
    ensures t[..m + 2 + n] == [t[0]] + t[1..][..m] + [t[m + 1]] + t[m + 2..][..n]
  {}

  lemma {:induction false} CloserAtEnd(t: string, open: char, close: char, depth: int)
    requires CloseAt(t, open, close, depth).Some?
    ensures t[CloseAt(t, open, close, depth).value] == close
  {
    if t[0] == open {
      CloserAtEnd(t[1..], open, close, depth + 1);
    } else if t[0] != close {
      CloserAtEnd(t[1..], open, close, depth);
    } else if depth != 1 {
      CloserAtEnd(t[1..], open, close, depth - 1);
    }
  }

  /** Closing two levels is closing one level, then closing the other after it. */
  lemma {:induction false} SplitDeeper(t: string, open: char, close: char, depth: int)
    requires open != close && depth >= 1
    requires CloseAt(t, open, close, depth + 1).Some?
    ensures CloseAt(t, open, close, depth).Some?
    ensures var m := CloseAt(t, open, close, depth).value;
            && m < |t| && CloseAt(t[m + 1..], open, close, 1).Some?
            && CloseAt(t, open, close, depth + 1).value == m + 1 + CloseAt(t[m + 1..], open, close, 1).value
  {
    if t[0] != close || depth > 1 {
      var d := if t[0] == open then 1 else if t[0] == close then -1 else 0;
      CloseStep(t, open, close, depth);
      CloseStep(t, open, close, depth + 1);
      SplitDeeper(t[1..], open, close, depth + d);
      var m := CloseAt(t[1..], open, close, depth + d).value;
      SuffixSlices(t, 1, m + 2);
    }
  }

  /** One character of the scan that does not end it. */
  lemma CloseStep(t: string, open: char, close: char, depth: int)
    requires open != close && t != "" && !(t[0] == close && depth == 1)
    ensures var d := if t[0] == open then 1 else if t[0] == close then -1 else 0;
            CloseAt(t, open, close, depth) == Shift(CloseAt(t[1..], open, close, depth + d))
  {}

  /** The words the scan can return are exactly the balanced words. */
  lemma ScannedWordsAreBalanced(v: string, rest: string, open: char, close: char)
    requires open != close
    ensures CloseAt(v + [close] + rest, open, close, 1) == Some(|v|)
       <==> exists w: Word :: PlainOnly(w, open, close) && Print(w, open, close) == v
  {
    var t := v + [close] + rest;
    if CloseAt(t, open, close, 1) == Some(|v|) {
      var w := ScanReturnsWord(t, open, close);
      assert t[..|v|] == v;
      assert PlainOnly(w, open, close) && Print(w, open, close) == v;
    }
    if w: Word :| PlainOnly(w, open, close) && Print(w, open, close) == v {
      ScanRecoversWord(w, open, close, rest);
    }
  }

  /** `braced_body`: content of the brace opened at `openIndex`, `None` for the raised error. */
  method BracedBody(text: string, openIndex: nat) returns (body: Option<string>)
    ensures openIndex >= |text| ==> body == None
    ensures openIndex < |text| ==>
            match CloseAt(text[openIndex..], '{', '}', 0)
            case Some(k) => k >= 1 && body == Some(text[openIndex + 1..openIndex + k])
            case None => body == None
  {
    if openIndex >= |text| { return None; }
    var depth, index := 0, openIndex;
    ghost var goal := CloseAt(text[openIndex..], '{', '}', 0);
    while index < |text|
      invariant openIndex <= index <= |text|
      invariant index == openIndex ==> depth == 0
      invariant goal == (match CloseAt(text[index..], '{', '}', depth)
                         case None => None
                         case Some(k) => Some(index - openIndex + k))
    {
      assert text[index..][1..] == text[index + 1..];
      if text[index] == '{' {
        depth := depth + 1;
      } else if text[index] == '}' {
        depth := depth - 1;
        if depth == 0 {
          return Some(text[openIndex + 1..index]);
        }
      }
      index := index + 1;
    }
    return None;
  }

  /** `cfg_test_items`: end (exclusive) of the inline module whose brace is at
      `brace`, `None` for unbalanced braces. */
  method ModuleEnd(code: string, brace: nat) returns (end: Option<nat>)
    requires brace < |code| && code[brace] == '{'
    ensures match CloseAt(code[brace + 1..], '{', '}', 1)
            case Some(k) => end == Some(brace + k + 2) && code[brace + k + 1] == '}'
            case None => end == None
  {
    var depth, index := 0, brace;
    ghost var goal := CloseAt(code[brace + 1..], '{', '}', 1);
    var closed := false;
    while index < |code| && !closed
      invariant brace <= index <= |code|
      invariant index == brace ==> depth == 0 && !closed
      invariant index > brace && !closed ==> depth >= 1
      invariant index > brace && !closed ==>
        goal == (match CloseAt(code[index..], '{', '}', depth)
                 case None => None
                 case Some(k) => Some(index - brace - 1 + k))
      invariant closed ==> depth == 0 && index > brace + 1 && goal == Some(index - brace - 2) && code[index - 1] == '}'
      decreases |code| - index
    {
      assert code[index..][1..] == code[index + 1..];
      if code[index] == '{' {
        depth := depth + 1;
      } else if code[index] == '}' {
        depth := depth - 1;
        if depth == 0 { closed := true; }
      }
      index := index + 1;
    }
    if depth != 0 {
      return None;
    }
    return Some(index);
  }
}
