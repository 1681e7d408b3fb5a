/** What the figures of the report are, on the records themselves. */
module ReportTheorems {
  import opened Text
  import opened Selections
  import opened Recorder
  import opened Aggregation

  // ----- the figures of a case -----

  function Own(id: string): Record -> Option<Record>
  {
    (r: Record) => if r.caseId == id then Some(r) else None
  }

  function OwnPassed(id: string): Record -> Option<Record>
  {
    (r: Record) => if r.caseId == id && r.passed then Some(r) else None
  }

  function OwnWall(id: string): Record -> Option<int>
  {
    (r: Record) => if r.caseId == id && r.passed then r.metrics.wall else None
  }

  /** `after - before`, if both were measured. */
  function OwnGrowth(id: string): Record -> Option<int>
  {
    (r: Record) => if r.caseId == id && r.passed && r.metrics.before.Some? && r.metrics.after.Some?
                   then Some(r.metrics.after.value - r.metrics.before.value) else None
  }

  lemma {:induction false} SucceededSnoc(own: seq<Record>, r: Record)
    ensures Succeeded(own + [r]) == if r.passed then Succeeded(own) + [r] else Succeeded(own)
    decreases |own|
  {
    if own == [] {
      assert own + [r] == [r] && [r][1..] == [];
    } else {
      SucceededSnoc(own[1..], r);
      var all, head := own + [r], if own[0].passed then [own[0]] else [];
      assert all[1..] == own[1..] + [r] && all[0] == own[0];
      assert Succeeded(all) == head + Succeeded(all[1..]);
      Assoc(head, Succeeded(own[1..]), [r]);
    }
  }

  lemma {:induction false} WallsSnoc(passed: seq<Record>, r: Record)
    ensures Walls(passed + [r]) == match r.metrics.wall case None => Walls(passed) case Some(w) => Walls(passed) + [w]
    decreases |passed|
  {
    if passed == [] {
      assert passed + [r] == [r] && [r][1..] == [];
    } else {
      WallsSnoc(passed[1..], r);
      assert (passed + [r])[1..] == passed[1..] + [r];
    }
  }

  lemma {:induction false} DeltasSnoc(passed: seq<Record>, r: Record)
    ensures Deltas(passed + [r]) == Deltas(passed) + Growth(r.metrics)
    decreases |passed|
  {
    hide Growth;
    if passed == [] {
      assert passed + [r] == [r] && [r][1..] == [];
    } else {
      DeltasSnoc(passed[1..], r);
      assert (passed + [r])[1..] == passed[1..] + [r];
      Assoc(Growth(passed[0].metrics), Deltas(passed[1..]), Growth(r.metrics));
    }
  }

  lemma {:induction false} FiguresAreChosen(records: seq<Record>, id: string)
    ensures var own := OfCase(records, id);
            && own == Choose(records, Own(id)) && Succeeded(own) == Choose(records, OwnPassed(id))
            && Walls(Succeeded(own)) == Choose(records, OwnWall(id))
            && Deltas(Succeeded(own)) == Choose(records, OwnGrowth(id))
    decreases |records|
  {
    if records != [] {
      var n := |records| - 1;
      var seen, r := records[..n], records[n];
      assert records == seen + [r];
      FiguresAreChosen(seen, id);
      FiguresSnoc(seen, r, id);
      ChooseSnoc(seen, r, Own(id));
      ChooseSnoc(seen, r, OwnPassed(id));
      ChooseSnoc(seen, r, OwnWall(id));
      ChooseSnoc(seen, r, OwnGrowth(id));
      hide OfCase, Succeeded, Walls, Deltas, Choose;
    }
  }

  lemma FiguresSnoc(records: seq<Record>, r: Record, id: string)
    ensures var own, more := OfCase(records, id), OfCase(records + [r], id);
            && more == (if r.caseId == id then own + [r] else own)
            && Succeeded(more) == (if r.caseId == id && r.passed then Succeeded(own) + [r] else Succeeded(own))
            && Walls(Succeeded(more)) == (match OwnWall(id)(r) case None => Walls(Succeeded(own)) case Some(w) => Walls(Succeeded(own)) + [w])
            && Deltas(Succeeded(more))
            == (match OwnGrowth(id)(r) case None => Deltas(Succeeded(own)) case Some(d) => Deltas(Succeeded(own)) + [d])
  {
    hide OfCase, Succeeded, Walls, Deltas;
    var own := OfCase(records, id);
    OfCaseSnoc(records, r, id);
    SucceededSnoc(own, r);
    WallsSnoc(Succeeded(own), r);
    DeltasSnoc(Succeeded(own), r);
    assert own + [] == own;
    var deltas := Deltas(Succeeded(own));
    assert deltas + [] == deltas;
  }

  /** The records of a case are exactly those that name it, its passed ones
      exactly those among them that passed, in order. */
  lemma CountsExactly(records: seq<Record>, id: string) returns (own: seq<nat>, passed: seq<nat>)
    ensures Selected(records, Own(id), own, OfCase(records, id)) && |own| == |OfCase(records, id)|
    ensures Selected(records, OwnPassed(id), passed, Succeeded(OfCase(records, id)))
    ensures |passed| == Passed(OfCase(records, id))
  {
    own := Chosen(records, Own(id));
    passed := Chosen(records, OwnPassed(id));
    FiguresAreChosen(records, id);
  }

  /** The wall figures of a case are those of exactly its passed records that
      have one, its deltas `after - before` of exactly those that have both. */
  lemma FiguresExactly(records: seq<Record>, id: string) returns (walls: seq<nat>, deltas: seq<nat>)
    ensures Selected(records, OwnWall(id), walls, Walls(Succeeded(OfCase(records, id))))
    ensures Selected(records, OwnGrowth(id), deltas, Deltas(Succeeded(OfCase(records, id))))
  {
    walls := Chosen(records, OwnWall(id));
    deltas := Chosen(records, OwnGrowth(id));
    FiguresAreChosen(records, id);
  }

  // ----- the totals -----

  function UnstablePlaces(cases: seq<Summarized>): set<nat>
  {
    set k: nat | k < |cases| && !cases[k].stable
  }

  lemma UnstableSnoc(cases: seq<Summarized>, c: Summarized)
    ensures UnstablePlaces(cases + [c]) == UnstablePlaces(cases) + if c.stable then {} else {|cases|}
  {
    var all := cases + [c];
    assert all[|cases|] == c;
    forall k: nat ensures k in UnstablePlaces(all) <==> k in UnstablePlaces(cases) || (k == |cases| && !c.stable) {
      if k < |cases| { assert all[k] == cases[k]; }
    }
  }

  /** The cases counted as unstable are exactly those not called stable. */
  lemma {:induction false} UnstableExactly(cases: seq<Summarized>)
    ensures |UnstablePlaces(cases)| == Unstable(cases)
    decreases |cases|
  {
    if cases == [] {
      assert UnstablePlaces(cases) == {};
    } else {
      var n := |cases| - 1;
      assert cases == cases[..n] + [cases[n]];
      UnstableExactly(cases[..n]);
      UnstableSnoc(cases[..n], cases[n]);
      assert n !in UnstablePlaces(cases[..n]);
      hide UnstablePlaces;
    }
  }
}
