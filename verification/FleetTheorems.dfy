/** What a comparison of the fleet means on the documents themselves. */
module FleetTheorems {
  import opened FleetGate

  /** Entry `i` of server `a` and entry `j` of server `b` say the same: outcome and
      code, and the detail too unless only outcomes count for the probe. */
  predicate SameAt(documents: map<Key, Document>, a: Key, i: nat, b: Key, j: nat, outcomeOnly: set<Probe>)
    requires a in documents && b in documents && i < |documents[a]| && j < |documents[b]|
  {
    var x, y := documents[a][i], documents[b][j];
    x.outcome == y.outcome && x.code == y.code && (x.probe in outcomeOnly || x.detail == y.detail)
  }

  lemma SaysEntry(documents: map<Key, Document>, k: Key, i: nat, probe: Probe, e: Entry)
    requires k in documents && i < |documents[k]| && documents[k][i].probe == probe && Distinct(Probes(documents[k]))
    requires Says(documents, k, probe, e)
    ensures e == documents[k][i]
  {
    PositionIs(documents[k], i);
  }

  /** For any outcome-only probes, on the documents: a server is named in a row
      exactly if it belongs to the fleet and what it says about the probe is not
      what the reference says. */
  lemma DivergentExactly(documents: map<Key, Document>, fleet: seq<Key>, outcomeOnly: set<Probe>, row: Row,
                         k: Key, i: nat, j: nat)
    requires RowOk(documents, fleet, outcomeOnly, row) && k in documents && fleet[0] in documents
    requires Distinct(Probes(documents[k])) && Distinct(Probes(documents[fleet[0]]))
    requires i < |documents[k]| && documents[k][i].probe == row.probe
    requires j < |documents[fleet[0]]| && documents[fleet[0]][j].probe == row.probe
    ensures k in row.divergent <==> k in fleet && !SameAt(documents, k, i, fleet[0], j, outcomeOnly)
  {
    var reference := row.observations[fleet[0]];
    assert fleet[0] in fleet;
    SaysEntry(documents, fleet[0], j, row.probe, reference);
    DivergersAre(row.observations, fleet[1..], reference, outcomeOnly, k);
    if k in fleet {
      SaysEntry(documents, k, i, row.probe, row.observations[k]);
      assert k == fleet[0] || k in fleet[1..];
    }
  }

  /** The servers are named in the order of the fleet. */
  lemma {:induction false} DivergersInOrder(observations: map<Key, Entry>, keys: seq<Key>, reference: Entry, outcomeOnly: set<Probe>)
    returns (at: seq<nat>)
    requires forall k :: k in keys ==> k in observations
    ensures var d := Divergers(observations, keys, reference, outcomeOnly);
            && |at| == |d| && (forall x, y :: 0 <= x < y < |at| ==> at[x] < at[y])
            && forall x :: 0 <= x < |at| ==> at[x] < |keys| && d[x] == keys[at[x]]
    decreases |keys|
  {
    at := [];
    if keys != [] {
      var n := |keys| - 1;
      assert keys[n] in keys;
      at := DivergersInOrder(observations, keys[..n], reference, outcomeOnly);
      if Differs(observations[keys[n]], reference, outcomeOnly) { at := at + [n]; }
    }
  }

  /** Any two servers of the fleet say the same about every probe of the reference. */
  ghost predicate FleetSame(documents: map<Key, Document>, fleet: seq<Key>, outcomeOnly: set<Probe>)
    requires fleet != [] && forall k :: k in fleet ==> k in documents
  {
    forall a, i, b, j ::
      && a in fleet && b in fleet && 0 <= i < |documents[a]| && 0 <= j < |documents[b]|
      && documents[a][i].probe == documents[b][j].probe && documents[a][i].probe in Probes(documents[fleet[0]])
      ==> SameAt(documents, a, i, b, j, outcomeOnly)
  }

  /** Where the reference says something about the probe of its entry `j`. */
  lemma RowOfProbe(documents: map<Key, Document>, fleet: seq<Key>, outcomeOnly: set<Probe>, rows: seq<Row>, j: nat)
    requires fleet != [] && fleet[0] in documents && RowsOk(documents, fleet, outcomeOnly, rows) && j < |documents[fleet[0]]|
    ensures j < |rows| && RowOk(documents, fleet, outcomeOnly, rows[j]) && rows[j].probe == documents[fleet[0]][j].probe
  {
    assert RowFor(documents, fleet, outcomeOnly, documents[fleet[0]][j].probe, rows[j]);
  }

  ghost predicate Compared(documents: map<Key, Document>, fleet: seq<Key>, outcomeOnly: set<Probe>, rows: seq<Row>)
  {
    && fleet != [] && (forall k :: k in fleet ==> k in documents && Distinct(Probes(documents[k])))
    && RowsOk(documents, fleet, outcomeOnly, rows)
  }

  /** A row without divergent servers: everyone says what the reference says. */
  lemma AgreesWithReference(documents: map<Key, Document>, fleet: seq<Key>, outcomeOnly: set<Probe>, rows: seq<Row>,
                            k: Key, i: nat, j: nat)
    requires Compared(documents, fleet, outcomeOnly, rows) && RowsAgree(rows) && k in fleet
    requires i < |documents[k]| && j < |documents[fleet[0]]| && documents[k][i].probe == documents[fleet[0]][j].probe
    ensures SameAt(documents, k, i, fleet[0], j, outcomeOnly)
  {
    assert fleet[0] in fleet;
    RowOfProbe(documents, fleet, outcomeOnly, rows, j);
    DivergentExactly(documents, fleet, outcomeOnly, rows[j], k, i, j);
  }

  /** All rows are free of divergent servers if and only if any two servers say
      the same about every probe of the reference. */
  lemma SameExactly(documents: map<Key, Document>, fleet: seq<Key>, outcomeOnly: set<Probe>, rows: seq<Row>)
    requires Compared(documents, fleet, outcomeOnly, rows)
    ensures RowsAgree(rows) <==> FleetSame(documents, fleet, outcomeOnly)
  {
    if RowsAgree(rows) {
      forall a, i, b, j |
        && a in fleet && b in fleet && 0 <= i < |documents[a]| && 0 <= j < |documents[b]|
        && documents[a][i].probe == documents[b][j].probe && documents[a][i].probe in Probes(documents[fleet[0]])
        ensures SameAt(documents, a, i, b, j, outcomeOnly)
      {
        var r :| 0 <= r < |Probes(documents[fleet[0]])| && Probes(documents[fleet[0]])[r] == documents[a][i].probe;
        AgreesWithReference(documents, fleet, outcomeOnly, rows, a, i, r);
        AgreesWithReference(documents, fleet, outcomeOnly, rows, b, j, r);
      }
    }
    if FleetSame(documents, fleet, outcomeOnly) {
      forall j | 0 <= j < |rows| ensures rows[j].divergent == [] { NobodyNamed(documents, fleet, outcomeOnly, rows, j); }
    }
  }

  lemma NobodyNamed(documents: map<Key, Document>, fleet: seq<Key>, outcomeOnly: set<Probe>, rows: seq<Row>, j: nat)
    requires Compared(documents, fleet, outcomeOnly, rows) && FleetSame(documents, fleet, outcomeOnly) && j < |rows|
    ensures rows[j].divergent == []
  {
    var row := rows[j];
    assert fleet[0] in fleet;
    RowOfProbe(documents, fleet, outcomeOnly, rows, j);
    if row.divergent != [] {
      var k := row.divergent[0];
      DivergersAre(row.observations, fleet[1..], row.observations[fleet[0]], outcomeOnly, k);
      assert k in fleet && Says(documents, k, row.probe, row.observations[k]);
      var i := Position(documents[k], row.probe);
      assert Probes(documents[fleet[0]])[j] == row.probe;
      assert SameAt(documents, k, i, fleet[0], j, outcomeOnly);
      DivergentExactly(documents, fleet, outcomeOnly, row, k, i, j);
    }
  }

  // ----- the declared image -----

  /** A server runs its declared image exactly if one of the identities reported
      for it is the digest, alone or after a repository and `@`. */
  lemma DeclaresExactly(identities: seq<string>, digest: string)
    ensures DeclaresImage(identities, digest)
       <==> exists i :: 0 <= i < |identities|
              && (identities[i] == digest || exists repository :: identities[i] == repository + ("@" + digest))
  {
    forall i | 0 <= i < |identities|
      ensures EndsWith(identities[i], "@" + digest) <==> exists repository :: identities[i] == repository + ("@" + digest)
    {
      EndsExactly(identities[i], "@" + digest);
    }
  }

  lemma EndsExactly(s: string, t: string)
    ensures EndsWith(s, t) <==> exists u :: s == u + t
  {
    if EndsWith(s, t) { assert s == s[..|s| - |t|] + t; }
    if u :| s == u + t { assert s[|u|..] == t; }
  }

  /** Of several servers under one key the last one's measurement stands. */
  lemma {:induction false} HolderIsLast(servers: seq<Server>, k: Key, i: nat)
    requires i < |servers| && servers[i].key == k && forall j :: i < j < |servers| ==> servers[j].key != k
    ensures k in Keys(servers) && Holder(servers, k) == servers[i]
    decreases |servers|
  {
    assert Keys(servers)[i] == k;
    var n := |servers| - 1;
    if i < n { HolderIsLast(servers[..n], k, i); }
  }
}
