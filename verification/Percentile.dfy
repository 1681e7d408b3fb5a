/** Nearest-rank percentiles of scripts/phase0_report.py,
    scripts/check_postgres_performance.py and scripts/check_mysql_performance.py,
    with exact rational fractions. */
module Percentile {
  import opened Text

  // ----- sorted(values) -----

  function Insert(v: real, s: seq<real>): seq<real>
  {
    if s == [] || v <= s[0] then [v] + s else [s[0]] + Insert(v, s[1..])
  }

  function Sort(s: seq<real>): seq<real>
  {
    if s == [] then [] else Insert(s[0], Sort(s[1..]))
  }

  predicate Sorted(s: seq<real>)
  {
    forall i, j :: 0 <= i < j < |s| ==> s[i] <= s[j]
  }

  /** How many samples are at most (`strict`: below) `v`. */
  function Count(s: seq<real>, v: real, strict: bool): nat
  {
    if s == [] then 0
    else (if s[0] < v || (!strict && s[0] == v) then 1 else 0) + Count(s[1..], v, strict)
  }

  lemma {:induction false} InsertSorts(v: real, s: seq<real>)
    requires Sorted(s)
    ensures Sorted(Insert(v, s)) && |Insert(v, s)| == |s| + 1
    ensures forall w :: w in Insert(v, s) <==> w == v || w in s
  {
    if s != [] && !(v <= s[0]) {
      InsertSorts(v, s[1..]);
      var r := Insert(v, s[1..]);
      assert forall k :: 0 <= k < |r| ==> r[k] in r;
      assert forall w :: w in s <==> w == s[0] || w in s[1..];
    }
  }

  lemma {:induction false} InsertCounts(v: real, s: seq<real>, w: real, strict: bool)
    ensures Count(Insert(v, s), w, strict) == (if v < w || (!strict && v == w) then 1 else 0) + Count(s, w, strict)
  {
    if s == [] || v <= s[0] {
      assert ([v] + s)[1..] == s;
    } else {
      InsertCounts(v, s[1..], w, strict);
      assert ([s[0]] + Insert(v, s[1..]))[1..] == Insert(v, s[1..]);
    }
  }

  lemma {:induction false} SortSorts(s: seq<real>)
    ensures Sorted(Sort(s)) && |Sort(s)| == |s|
    ensures forall w :: w in Sort(s) <==> w in s
  {
    if s != [] {
      SortSorts(s[1..]);
      InsertSorts(s[0], Sort(s[1..]));
      assert forall w :: w in s <==> w == s[0] || w in s[1..];
    }
  }

  lemma {:induction false} SortCounts(s: seq<real>, w: real, strict: bool)
    ensures Count(Sort(s), w, strict) == Count(s, w, strict)
  {
    if s != [] {
      SortCounts(s[1..], w, strict);
      InsertCounts(s[0], Sort(s[1..]), w, strict);
    }
  }

  lemma SortMember(s: seq<real>, i: nat)
    requires i < |Sort(s)|
    ensures Sort(s)[i] in s
  {
    SortSorts(s);
    assert Sort(s)[i] in Sort(s);
  }

  // ----- ranks -----

  /** `math.ceil(num / den)`. */
  function CeilDiv(num: int, den: int): int
    requires den > 0
  {
    -((-num) / den)
  }

  function Max(a: int, b: int): int
  {
    if a > b then a else b
  }

  /** `phase0_report.nearest_rank`; `None` for the reported errors. */
  function NearestRank(values: seq<real>, num: int, den: int): Option<real>
    requires den > 0
  {
    if values == [] || !(0 < num <= den) then None
    else At(Sort(values), Max(1, CeilDiv(num * |values|, den)) - 1)
  }

  /** `check_postgres_performance.percentile_nearest_rank`; `None` for an index error. */
  function PercentileNearestRank(values: seq<real>, num: int, den: int): Option<real>
    requires den > 0
  {
    At(Sort(values), Max(1, CeilDiv(num * |values|, den)) - 1)
  }

  /** `check_mysql_performance.percentile`; `None` for an index error. */
  function PercentileOf(values: seq<real>, num: int, den: int): Option<real>
    requires den > 0
  {
    At(Sort(values), Max(0, CeilDiv(num * |values|, den) - 1))
  }

  function At(s: seq<real>, i: int): Option<real>
  {
    if 0 <= i < |s| then Some(s[i]) else None
  }

  lemma {:induction false} RankInRange(n: int, num: int, den: int)
    requires n > 0 && 0 < num <= den
    ensures 1 <= CeilDiv(num * n, den) <= n
  {
    var c := CeilDiv(num * n, den);
    var r := (-(num * n)) % den;
    MulLe(num, den, n);
    MulLe(1, num, n);
    Quotient(den, c, num * n, r, n);
  }

  lemma Quotient(den: int, c: int, x: int, r: int, n: int)
    requires den > 0 && den * c == x + r && 0 <= r < den && 1 <= x <= den * n
    ensures 1 <= c <= n
  {
    if c < 1 { MulLe(c, 0, den); assert false; }
    if c > n { MulLe(n + 1, c, den); assert false; }
  }

  lemma MulLe(a: int, b: int, c: int)
    requires a <= b && c >= 0
    ensures a * c <= b * c
  {}

  /** Exactly the first `k + 1` samples of a sorted list are at most its `k`-th, at the least. */
  lemma {:induction false} CountAtLeast(s: seq<real>, k: nat, v: real)
    requires Sorted(s) && k < |s| && s[k] <= v
    ensures Count(s, v, false) >= k + 1
    decreases |s|
  {
    if k > 0 {
      CountAtLeast(s[1..], k - 1, v);
    }
  }

  lemma {:induction false} CountBelow(s: seq<real>, k: nat, v: real)
    requires Sorted(s) && k < |s| && s[k] >= v
    ensures Count(s, v, true) <= k
    decreases |s|
  {
    if k > 0 {
      CountBelow(s[1..], k - 1, v);
    } else {
      NoneBelow(s, v);
    }
  }

  lemma {:induction false} NoneBelow(s: seq<real>, v: real)
    requires forall i :: 0 <= i < |s| ==> s[i] >= v
    ensures Count(s, v, true) == 0
  {
    if s != [] { NoneBelow(s[1..], v); }
  }

  /** `v` is a nearest-rank value: a sample with at least `rank` samples at or
      below it and fewer than `rank` below it. */
  predicate IsNearestRank(values: seq<real>, rank: int, v: real)
  {
    v in values && Count(values, v, false) >= rank && Count(values, v, true) < rank
  }

  /** The sample at a place of the sorted list is the one of nearest rank there. */
  lemma RankIsUnique(values: seq<real>, rank: int, v: real)
    requires 1 <= rank <= |values|
    ensures |Sort(values)| == |values|
    ensures v == Sort(values)[rank - 1] <==> IsNearestRank(values, rank, v)
  {
    var s := Sort(values);
    SortSorts(values);
    var k := rank - 1;
    CountAtLeast(s, k, s[k]);
    CountBelow(s, k, s[k]);
    SortMember(values, k);
    SortCounts(values, s[k], false);
    SortCounts(values, s[k], true);
    SortCounts(values, v, false);
    SortCounts(values, v, true);
    if IsNearestRank(values, rank, v) {
      if s[k] < v {
        CountStrictly(s, k, v);
      } else if v < s[k] {
        CountAtMost(s, k, v);
      }
    }
  }

  /** `math.ceil`: the least integer whose multiple of `den` reaches `num`. */
  lemma CeilDivExactly(num: int, den: int, c: int)
    requires den > 0
    ensures c == CeilDiv(num, den) <==> den * (c - 1) < num <= den * c
  {
    var q := CeilDiv(num, den);
    assert den * (q - 1) < num <= den * q by {
      assert -num == den * ((-num) / den) + (-num) % den;
    }
    if c < q { MulLe(c, q - 1, den); }
    if c > q { MulLe(q, c - 1, den); }
  }

  /** The definition of the percentile, for every list and fraction: the answer
      is the one sample of nearest rank. */
  lemma NearestRankIsRight(values: seq<real>, num: int, den: int, v: real)
    requires values != [] && 0 < num <= den
    ensures NearestRank(values, num, den).Some?
    ensures v == NearestRank(values, num, den).value <==> IsNearestRank(values, CeilDiv(num * |values|, den), v)
  {
    RankInRange(|values|, num, den);
    RankIsUnique(values, CeilDiv(num * |values|, den), v);
  }

  /** It is an error exactly for an empty list or a fraction outside (0, 1]. */
  lemma NoRankExactly(values: seq<real>, num: int, den: int)
    requires den > 0
    ensures NearestRank(values, num, den) == None <==> values == [] || num <= 0 || num > den
  {
    if values != [] && 0 < num <= den { NearestRankIsRight(values, num, den, 0.0); }
  }

  lemma {:induction false} CountStrictly(s: seq<real>, k: nat, v: real)
    requires Sorted(s) && k < |s| && s[k] < v
    ensures Count(s, v, true) >= k + 1
    decreases |s|
  {
    if k > 0 { CountStrictly(s[1..], k - 1, v); }
  }

  lemma {:induction false} CountAtMost(s: seq<real>, k: nat, v: real)
    requires Sorted(s) && k < |s| && s[k] > v
    ensures Count(s, v, false) <= k
    decreases |s|
  {
    if k > 0 {
      CountAtMost(s[1..], k - 1, v);
    } else {
      NoneAtMost(s, v);
    }
  }

  lemma {:induction false} NoneAtMost(s: seq<real>, v: real)
    requires forall i :: 0 <= i < |s| ==> s[i] > v
    ensures Count(s, v, false) == 0
  {
    if s != [] { NoneAtMost(s[1..], v); }
  }

  /** The three implementations give one answer on every non-empty list. */
  lemma ImplementationsCoincide(values: seq<real>, num: int, den: int)
    requires values != [] && 0 < num <= den
    ensures NearestRank(values, num, den) == PercentileNearestRank(values, num, den) == PercentileOf(values, num, den)
    ensures NearestRank(values, num, den).Some?
  {
    RankInRange(|values|, num, den);
    SortSorts(values);
  }

  // ----- stats -----

  /** `statistics.median`. */
  function Median(values: seq<real>): real
    requires values != []
  {
    SortSorts(values);
    var s, n := Sort(values), |values|;
    if n % 2 == 1 then s[n / 2] else (s[n / 2 - 1] + s[n / 2]) / 2.0
  }

  /** `int(x)`: truncation toward zero. */
  function Trunc(x: real): int
  {
    if x >= 0.0 then x.Floor else -((-x).Floor)
  }

  /** The two middle samples, one sample if their number is odd. */
  predicate Middle(values: seq<real>, a: real, b: real)
  {
    IsNearestRank(values, (|values| + 1) / 2, a) && IsNearestRank(values, |values| / 2 + 1, b)
  }

  /** The median is the mean of the two middle samples, told by how many samples are around them. */
  lemma MedianExactly(values: seq<real>, m: real)
    requires values != []
    ensures m == Median(values) <==> exists a, b :: Middle(values, a, b) && m == (a + b) / 2.0
  {
    var n := |values|;
    SortSorts(values);
    var low, high := Sort(values)[(n + 1) / 2 - 1], Sort(values)[n / 2];
    hide IsNearestRank;
    forall a, b ensures Middle(values, a, b) <==> a == low && b == high {
      RankIsUnique(values, (n + 1) / 2, a);
      RankIsUnique(values, n / 2 + 1, b);
    }
    assert Middle(values, low, high) && Median(values) == (low + high) / 2.0;
  }

  function Abs(x: real): real
  {
    if x < 0.0 then -x else x
  }

  /** `int(x)` is the integer next to `x` on the side of zero. */
  lemma TruncExactly(x: real, t: int)
    ensures t == Trunc(x)
       <==> Abs(t as real) <= Abs(x) < Abs(t as real) + 1.0 && (t > 0 ==> x > 0.0) && (t < 0 ==> x < 0.0)
  {}

  /** min <= median <= p95 <= max, for every sample list. */
  lemma StatsAreOrdered(values: seq<real>, lo: real, hi: real)
    requires lo in values && hi in values && forall v :: v in values ==> lo <= v <= hi
    ensures NearestRank(values, 95, 100).Some?
    ensures lo <= Median(values) <= NearestRank(values, 95, 100).value <= hi
  {
    var s, n := Sort(values), |values|;
    SortSorts(values);
    RankInRange(n, 95, 100);
    var k := CeilDiv(95 * n, 100) - 1;
    assert k >= n / 2;
    forall i | 0 <= i < n ensures lo <= s[i] <= hi {
      SortMember(values, i);
    }
  }

  lemma TruncBetween(lo: int, m: real, p: int)
    requires lo as real <= m <= p as real
    ensures lo <= Trunc(m) <= p
  {}

  /** Truncating the median of whole samples keeps it between minimum and p95. */
  lemma TruncatedMedian(values: seq<real>, lo: int, hi: int)
    requires lo as real in values && hi as real in values
    requires forall v :: v in values ==> lo as real <= v <= hi as real && v == v.Floor as real
    ensures NearestRank(values, 95, 100).Some?
    ensures lo <= Trunc(Median(values)) && Trunc(Median(values)) as real <= NearestRank(values, 95, 100).value
  {
    StatsAreOrdered(values, lo as real, hi as real);
    var p := NearestRank(values, 95, 100).value;
    NearestRankIsRight(values, 95, 100, p);
    assert p == p.Floor as real;
    TruncBetween(lo, Median(values), p.Floor);
  }
}
