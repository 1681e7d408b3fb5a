/** Python's `sorted` on a set of strings: code-point order, no repetition. */
module SortedText {

  predicate Le(a: string, b: string)
  {
    a == "" || (b != "" && (a[0] < b[0] || (a[0] == b[0] && Le(a[1..], b[1..]))))
  }

  /** Code-point order: a prefix comes first, else the first difference decides. */
  lemma {:induction false} LeExactly(a: string, b: string)
    ensures Le(a, b) <==> a <= b || exists k :: 0 <= k < |a| && k < |b| && a[..k] == b[..k] && a[k] < b[k]
    decreases |a|
  {
    if a != "" && b != "" && a[0] == b[0] {
      var x, y := a[1..], b[1..];
      LeExactly(x, y);
      assert a == [a[0]] + x && b == [a[0]] + y;
      if k :| 0 <= k < |x| && k < |y| && x[..k] == y[..k] && x[k] < y[k] {
        assert a[..k + 1] == [a[0]] + x[..k] == b[..k + 1] && a[k + 1] == x[k] && b[k + 1] == y[k];
      }
      if k :| 0 <= k < |a| && k < |b| && a[..k] == b[..k] && a[k] < b[k] {
        assert k > 0 && x[..k - 1] == a[..k][1..] == b[..k][1..] == y[..k - 1] && x[k - 1] == a[k] && y[k - 1] == b[k];
      }
    } else if a != "" && b != "" && a[0] < b[0] {
      assert a[..0] == b[..0];
    } else if a != "" && b != "" {
      assert forall k :: 0 < k < |a| && k < |b| ==> a[..k][0] == a[0] && b[..k][0] == b[0];
    }
  }

  lemma {:induction false} LeIsTotal(a: string, b: string)
    ensures Le(a, b) || Le(b, a)
    ensures Le(a, b) && Le(b, a) ==> a == b
  {
    if a != "" && b != "" && a[0] == b[0] {
      LeIsTotal(a[1..], b[1..]);
      assert a == [a[0]] + a[1..] && b == [b[0]] + b[1..];
    }
  }

  lemma {:induction false} LeIsTransitive(a: string, b: string, c: string)
    requires Le(a, b) && Le(b, c)
    ensures Le(a, c)
  {
    if a != "" && a[0] == b[0] && b[0] == c[0] { LeIsTransitive(a[1..], b[1..], c[1..]); }
  }

  lemma {:induction false} LeastExists(s: set<string>) returns (m: string)
    requires s != {}
    ensures m in s && forall x :: x in s ==> Le(m, x)
    decreases |s|
  {
    m :| m in s;
    LeIsTotal(m, m);
    var rest := s - {m};
    if rest != {} {
      var n := LeastExists(rest);
      LeIsTotal(m, n);
      if Le(n, m) {
        forall x | x in s ensures Le(n, x) { assert x == m || x in rest; }
        m := n;
      } else {
        forall x | x in s ensures Le(m, x) {
          assert x == m || x in rest;
          if x != m { LeIsTransitive(m, n, x); }
        }
      }
    }
  }

  predicate Ascending(r: seq<string>)
  {
    forall i, j :: 0 <= i < j < |r| ==> r[i] != r[j] && Le(r[i], r[j])
  }

  /** `sorted(s)`. */
  method Sorted(s: set<string>) returns (r: seq<string>)
    ensures Ascending(r) && forall x :: x in r <==> x in s
  {
    r := [];
    var left := s;
    while left != {}
      invariant left <= s
      invariant Ascending(r) && forall x :: x in s <==> x in r || x in left
      invariant forall x, y :: x in r && y in left ==> x != y && Le(x, y)
      decreases |left|
    {
      ghost var w := LeastExists(left);
      var m :| m in left && forall x :: x in left ==> Le(m, x);
      r := r + [m];
      left := left - {m};
    }
  }
}
