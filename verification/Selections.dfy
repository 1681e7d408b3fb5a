/** What a filtering pass over a list selects: which places, in order, and what for each. */
module Selections {
  import opened Text

  predicate Ordered(at: seq<nat>)
  {
    forall i, j :: 0 <= i < j < |at| ==> at[i] < at[j]
  }

  /** `values[i]` is what `f` gives for the item at place `at[i]`. */
  ghost predicate GivenAt<A, T>(items: seq<A>, f: A -> Option<T>, at: seq<nat>, values: seq<T>)
  {
    |at| == |values| && forall i :: 0 <= i < |at| ==> at[i] < |items| && f(items[at[i]]) == Some(values[i])
  }

  /** No item that `f` gives a value for is left out. */
  ghost predicate AllGiven<A, T>(items: seq<A>, f: A -> Option<T>, at: seq<nat>)
  {
    forall k :: 0 <= k < |items| && f(items[k]).Some? ==> k in at
  }

  /** `values` holds, in order, what `f` gives for exactly the items it gives a
      value for: those at the places `at`. */
  ghost predicate Selected<A, T>(items: seq<A>, f: A -> Option<T>, at: seq<nat>, values: seq<T>)
  {
    Ordered(at) && GivenAt(items, f, at, values) && AllGiven(items, f, at)
  }

  function Choose<A, T>(items: seq<A>, f: A -> Option<T>): seq<T>
  {
    if items == [] then [] else
    var n := |items| - 1;
    match f(items[n])
    case None => Choose(items[..n], f)
    case Some(v) => Choose(items[..n], f) + [v]
  }

  lemma ChooseSnoc<A, T>(items: seq<A>, x: A, f: A -> Option<T>)
    ensures Choose(items + [x], f) == match f(x) case None => Choose(items, f) case Some(v) => Choose(items, f) + [v]
  {
    assert (items + [x])[..|items|] == items;
  }

  lemma AllGivenSnoc<A, T>(items: seq<A>, x: A, f: A -> Option<T>, at: seq<nat>)
    requires AllGiven(items, f, at)
    ensures AllGiven(items + [x], f, at + [|items|])
    ensures f(x).None? ==> AllGiven(items + [x], f, at)
  {
    var all, more := items + [x], at + [|items|];
    assert more[|at|] == |items|;
    forall k | 0 <= k < |all| && f(all[k]).Some? ensures k in more && (f(x).None? ==> k in at) {
      if k < |items| { assert all[k] == items[k]; } else { assert all[k] == x; }
    }
  }

  lemma GivenSnoc<A, T>(items: seq<A>, x: A, f: A -> Option<T>, at: seq<nat>, values: seq<T>)
    requires GivenAt(items, f, at, values)
    ensures GivenAt(items + [x], f, at, values)
    ensures f(x).Some? ==> GivenAt(items + [x], f, at + [|items|], values + [f(x).value])
  {
    var all, more := items + [x], at + [|items|];
    forall i | 0 <= i < |at| ensures at[i] < |all| && f(all[at[i]]) == Some(values[i]) && more[i] == at[i] {
      assert all[at[i]] == items[at[i]];
    }
    assert more[|at|] == |items| && all[|items|] == x;
  }

  lemma OrderedSnoc<A, T>(items: seq<A>, f: A -> Option<T>, at: seq<nat>, values: seq<T>)
    requires Ordered(at) && GivenAt(items, f, at, values)
    ensures Ordered(at + [|items|])
  {}

  lemma {:induction false} Chosen<A, T>(items: seq<A>, f: A -> Option<T>) returns (at: seq<nat>)
    ensures Selected(items, f, at, Choose(items, f))
    decreases |items|
  {
    at := [];
    if items != [] {
      hide GivenAt, AllGiven, Ordered;
      var n := |items| - 1;
      assert items == items[..n] + [items[n]];
      at := Chosen(items[..n], f);
      AllGivenSnoc(items[..n], items[n], f, at);
      GivenSnoc(items[..n], items[n], f, at, Choose(items[..n], f));
      OrderedSnoc(items[..n], f, at, Choose(items[..n], f));
      if f(items[n]).Some? { at := at + [n]; }
    }
  }
}
