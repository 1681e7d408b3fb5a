/** Text helpers shared by the scanners: a model of the few Python string
    operations they use (`isspace`, `strip`, `startswith`, `find`, `join`). */
module Text {

  datatype Option<+T> = None | Some(value: T)

  lemma Assoc<T>(a: seq<T>, b: seq<T>, c: seq<T>)
    ensures a + (b + c) == a + b + c
  {}

  lemma PrefixSnoc<T>(s: seq<T>, i: nat)
    requires i < |s|
    ensures s[..i + 1] == s[..i] + [s[i]]
  {}

  lemma WholePrefix<T>(s: seq<T>)
    ensures s[..|s|] == s
  {}

  lemma SplitSuffix(s: string, i: nat, j: nat)
    requires i <= j <= |s|
    ensures s[i..] == s[i..j] + s[j..]
  {}

  /** Slices of a suffix are slices of the whole. */
  lemma SuffixSlices(s: string, i: nat, j: nat)
    requires i <= j <= |s|
    ensures s[i..][..j - i] == s[i..j] && s[i..][j - i..] == s[j..]
  {}

  /** The characters Python's `str.isspace` (and `\s`) accept. */
  predicate IsSpace(c: char)
  {
    var n := c as int;
    || 9 <= n <= 13 || 28 <= n <= 32 || n == 0x85 || n == 0xA0 || n == 0x1680
    || 0x2000 <= n <= 0x200A || n == 0x2028 || n == 0x2029 || n == 0x202F || n == 0x205F || n == 0x3000
  }

  predicate Blank(s: string)
  {
    forall i :: 0 <= i < |s| ==> IsSpace(s[i])
  }

  /** A text `strip` leaves alone: empty, or delimited by two non-spaces. */
  predicate Trimmed(s: string)
  {
    s != "" ==> !IsSpace(s[0]) && !IsSpace(s[|s| - 1])
  }

  predicate Starts(s: string, t: string)
  {
    |t| <= |s| && s[..|t|] == t
  }

  /** `s.startswith` for a two-character word. */
  predicate StartsPair(s: string, a: char, b: char)
  {
    |s| >= 2 && s[0] == a && s[1] == b
  }

  function LStrip(s: string): string
  {
    if s != "" && IsSpace(s[0]) then LStrip(s[1..]) else s
  }

  function RStrip(s: string): string
  {
    if s != "" && IsSpace(s[|s| - 1]) then RStrip(s[..|s| - 1]) else s
  }

  function Strip(s: string): (r: string)
    ensures |r| <= |s|
  {
    LStripShorter(s);
    RStripShorter(LStrip(s));
    RStrip(LStrip(s))
  }

  lemma LStripShorter(s: string)
    ensures |LStrip(s)| <= |s|
  {}

  lemma RStripShorter(s: string)
    ensures |RStrip(s)| <= |s|
  {}

  lemma {:induction false} LStripBlank(w: string, s: string)
    requires Blank(w)
    requires s == "" || !IsSpace(s[0])
    ensures LStrip(w + s) == s
  {
    if w == "" {
      assert w + s == s;
    } else {
      assert (w + s)[1..] == w[1..] + s;
      LStripBlank(w[1..], s);
    }
  }

  lemma {:induction false} RStripBlank(s: string, w: string)
    requires Blank(w)
    requires s == "" || !IsSpace(s[|s| - 1])
    ensures RStrip(s + w) == s
  {
    if w == "" {
      assert s + w == s;
    } else {
      assert (s + w)[..|s + w| - 1] == s + w[..|w| - 1];
      RStripBlank(s, w[..|w| - 1]);
    }
  }

  /** Surrounding a trimmed text with blanks is undone by `strip`. */
  lemma StripSurrounded(before: string, s: string, after: string)
    requires Blank(before) && Blank(after) && Trimmed(s)
    ensures Strip(before + s + after) == s
  {
    if s == "" {
      assert before + s + after == (before + after) + "";
      LStripBlank(before + after, "");
    } else {
      assert before + s + after == before + (s + after);
      LStripBlank(before, s + after);
      RStripBlank(s, after);
    }
  }

  /** `t.find(word)`: the least position where `word` occurs. */
  function Find(t: string, word: string): (r: Option<nat>)
    requires word != ""
    ensures r.Some? ==> r.value + |word| <= |t| && Starts(t[r.value..], word)
  {
    if t == "" then None
    else if Starts(t, word) then Some(0)
    else match Find(t[1..], word)
      case None => None
      case Some(k) => assert t[1..][k..] == t[k + 1..]; Some(k + 1)
  }

  /** `find` answers with the first occurrence, and `None` only when there is none. */
  lemma {:induction false} FindIsFirst(t: string, word: string, k: nat)
    requires word != "" && k < |t| && Starts(t[k..], word)
    ensures Find(t, word).Some? && Find(t, word).value <= k
  {
    if k > 0 && !Starts(t, word) {
      assert t[1..][k - 1..] == t[k..];
      FindIsFirst(t[1..], word, k - 1);
    }
  }

  /** `find` at a known least occurrence. */
  lemma FindAt(t: string, word: string, k: nat)
    requires word != "" && k < |t| && Starts(t[k..], word)
    requires forall j :: 0 <= j < k ==> !Starts(t[j..], word)
    ensures Find(t, word) == Some(k)
  {
    FindIsFirst(t, word, k);
  }

  lemma {:induction false} FindCharAbsent(t: string, c: char)
    requires c !in t
    ensures Find(t, [c]) == None
  {
    if t != "" {
      assert t[0] != c;
      FindCharAbsent(t[1..], c);
    }
  }

  lemma {:induction false} FindCharAt(a: string, c: char, b: string)
    requires c !in a
    ensures Find(a + [c] + b, [c]) == Some(|a|)
  {
    var t := a + [c] + b;
    if a == "" {
      assert t[..1] == [c];
    } else {
      assert t[0] == a[0] != c;
      assert t[1..] == a[1..] + [c] + b;
      FindCharAt(a[1..], c, b);
    }
  }

  /** `",".join(parts)`. */
  function Join(parts: seq<string>): string
    requires parts != []
  {
    if |parts| == 1 then parts[0] else parts[0] + "," + Join(parts[1..])
  }

  /** `s.count("\n")`: a line number is one more than the newlines before the offset. */
  function Newlines(s: string): nat
  {
    if s == "" then 0 else (if s[0] == '\n' then 1 else 0) + Newlines(s[1..])
  }

  lemma {:induction false} SameNewlines(s: string, out: string)
    requires |s| == |out|
    requires forall k :: 0 <= k < |s| ==> (out[k] == '\n' <==> s[k] == '\n')
    ensures Newlines(s) == Newlines(out)
  {
    if s != "" {
      assert out[0] == '\n' <==> s[0] == '\n';
      SameNewlines(s[1..], out[1..]);
    }
  }
}
