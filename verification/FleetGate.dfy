/** The evidence gate over a fleet of servers: `compare` of
    scripts/check_mariadb_driver.py, which compares every server with the
    reference only, followed by `validate` of scripts/check_session_matrix.py. */
module FleetGate {
  import opened Text
  import SortedText

  type Key = string
  type Probe = string

  /** What a probe is about. */
  datatype Template = Template(family: string, surface: string, question: string)

  datatype Entry = Entry(probe: Probe, template: Template, outcome: string, detail: string, code: string)
  type Document = seq<Entry>

  /** One line of the comparison: what each server said, and who differs from the reference. */
  datatype Row = Row(probe: Probe, template: Template, observations: map<Key, Entry>, divergent: seq<Key>)

  datatype Error = NoFleet | NoReference | DuplicateProbe | WrongInventory | MissingProbe
                 | NotAccepted | Divergent | WrongRowCount
  datatype Result<+T> = Ok(value: T) | Err(error: Error)

  function Probes(d: Document): (r: seq<Probe>)
    ensures |r| == |d| && forall i :: 0 <= i < |d| ==> r[i] == d[i].probe
  {
    seq(|d|, i requires 0 <= i < |d| => d[i].probe)
  }

  predicate Distinct(names: seq<Probe>)
  {
    forall i, j :: 0 <= i < j < |names| ==> names[i] != names[j]
  }

  /** The name occurs at two places. */
  predicate Repeated(names: seq<Probe>, x: Probe)
  {
    exists i, j :: 0 <= i < j < |names| && names[i] == x && names[j] == x
  }

  lemma RepeatedSnoc(names: seq<Probe>, name: Probe, x: Probe)
    ensures Repeated(names + [name], x) <==> Repeated(names, x) || (x == name && name in names)
  {
    var all := names + [name];
    if Repeated(all, x) {
      var i, j :| 0 <= i < j < |all| && all[i] == x && all[j] == x;
      if j < |names| { assert names[i] == x && names[j] == x; }
    }
    if Repeated(names, x) {
      var i, j :| 0 <= i < j < |names| && names[i] == x && names[j] == x;
      assert all[i] == x && all[j] == x;
    }
    if x == name && name in names {
      var i :| 0 <= i < |names| && names[i] == x;
      assert all[i] == x && all[|names|] == x;
    }
  }

  /** `duplicate_probes`: the names that occur more than once, sorted, each listed once. */
  method DuplicateProbes(names: seq<Probe>) returns (r: seq<Probe>)
    ensures SortedText.Ascending(r) && forall x :: x in r <==> Repeated(names, x)
    ensures r == [] <==> Distinct(names)
  {
    var seen: set<Probe>, duplicated: set<Probe> := {}, {};
    for i := 0 to |names|
      invariant forall x :: x in seen <==> x in names[..i]
      invariant forall x :: x in duplicated <==> Repeated(names[..i], x)
    {
      PrefixSnoc(names, i);
      forall x ensures Repeated(names[..i + 1], x) <==> Repeated(names[..i], x) || (x == names[i] && names[i] in names[..i]) {
        RepeatedSnoc(names[..i], names[i], x);
      }
      if names[i] in seen { duplicated := duplicated + {names[i]}; }
      seen := seen + {names[i]};
    }
    WholePrefix(names);
    r := SortedText.Sorted(duplicated);
    NoneRepeated(names, r);
  }

  lemma NoneRepeated(names: seq<Probe>, r: seq<Probe>)
    requires forall x :: x in r <==> Repeated(names, x)
    ensures r == [] <==> Distinct(names)
  {
    if !Distinct(names) {
      var i, j :| 0 <= i < j < |names| && names[i] == names[j];
      assert Repeated(names, names[i]);
    }
    if r != [] { assert r[0] in r; }
  }

  /** Position of the entry for a probe, the length if there is none. */
  function Position(d: Document, probe: Probe): (i: nat)
    ensures i <= |d|
    ensures i < |d| ==> d[i].probe == probe
    ensures i == |d| ==> forall k :: 0 <= k < |d| ==> d[k].probe != probe
  {
    if d == [] then 0 else if d[0].probe == probe then 0 else 1 + Position(d[1..], probe)
  }

  lemma PositionIs(d: Document, i: nat)
    requires i < |d| && Distinct(Probes(d))
    ensures Position(d, d[i].probe) == i
  {
    var p := Position(d, d[i].probe);
    assert Probes(d)[i] == d[i].probe;
    if p < |d| { assert Probes(d)[p] == d[p].probe; }
  }

  // ----- compare -----

  predicate Differs(a: Entry, b: Entry, outcomeOnly: set<Probe>)
  {
    a.outcome != b.outcome || a.code != b.code || (a.probe !in outcomeOnly && a.detail != b.detail)
  }

  /** The servers of `keys` that differ from the reference, in fleet order. */
  function Divergers(observations: map<Key, Entry>, keys: seq<Key>, reference: Entry, outcomeOnly: set<Probe>): seq<Key>
    requires forall k :: k in keys ==> k in observations
  {
    if keys == [] then [] else
    var n := |keys| - 1;
    assert keys[n] in keys;
    Divergers(observations, keys[..n], reference, outcomeOnly)
    + if Differs(observations[keys[n]], reference, outcomeOnly) then [keys[n]] else []
  }

  lemma {:induction false} DivergersAre(observations: map<Key, Entry>, keys: seq<Key>, reference: Entry, outcomeOnly: set<Probe>, k: Key)
    requires forall x :: x in keys ==> x in observations
    ensures k in Divergers(observations, keys, reference, outcomeOnly)
       <==> k in keys && Differs(observations[k], reference, outcomeOnly)
    decreases |keys|
  {
    if keys != [] {
      var n := |keys| - 1;
      assert keys == keys[..n] + [keys[n]];
      DivergersAre(observations, keys[..n], reference, outcomeOnly, k);
    }
  }

  /** What a server says about a probe, if it says anything. */
  predicate Says(documents: map<Key, Document>, k: Key, probe: Probe, e: Entry)
  {
    k in documents && var d := documents[k]; var at := Position(d, probe); at < |d| && e == d[at]
  }

  /** `row` lines up what every server of the fleet observed for its probe. */
  ghost predicate RowOk(documents: map<Key, Document>, fleet: seq<Key>, outcomeOnly: set<Probe>, row: Row)
  {
    && fleet != []
    && (forall k :: k in row.observations <==> k in fleet)
    && (forall k :: k in fleet ==> Says(documents, k, row.probe, row.observations[k]))
    && fleet[0] in row.observations && row.template == row.observations[fleet[0]].template
    && row.divergent == Divergers(row.observations, fleet[1..], row.observations[fleet[0]], outcomeOnly)
  }

  ghost predicate RowFor(documents: map<Key, Document>, fleet: seq<Key>, outcomeOnly: set<Probe>, probe: Probe, row: Row)
  {
    row.probe == probe && RowOk(documents, fleet, outcomeOnly, row)
  }

  ghost predicate RowsOk(documents: map<Key, Document>, fleet: seq<Key>, outcomeOnly: set<Probe>, rows: seq<Row>)
    requires fleet != [] && fleet[0] in documents
  {
    && |rows| == |documents[fleet[0]]|
    && forall i :: 0 <= i < |rows| ==> RowFor(documents, fleet, outcomeOnly, documents[fleet[0]][i].probe, rows[i])
  }

  /** No document repeats a probe, and each is exactly the expected inventory, if there is one. */
  ghost predicate InventoryFits(document: Document, expected: Option<seq<Probe>>)
  {
    Distinct(Probes(document)) && (expected.Some? ==> Probes(document) == expected.value)
  }

  ghost predicate Comparable(documents: map<Key, Document>, fleet: seq<Key>, expected: Option<seq<Probe>>)
  {
    && fleet != [] && fleet[0] in documents
    && (forall k :: k in documents ==> InventoryFits(documents[k], expected))
    && forall i :: 0 <= i < |documents[fleet[0]]| ==> OnAll(documents, fleet, documents[fleet[0]][i].probe)
  }

  /** Every server of the fleet has the probe. */
  ghost predicate OnAll(documents: map<Key, Document>, fleet: seq<Key>, probe: Probe)
  {
    forall k :: k in fleet ==> k in documents && probe in Probes(documents[k])
  }

  /** What every server of the fleet observed for one probe. */
  ghost predicate Lined(documents: map<Key, Document>, fleet: seq<Key>, probe: Probe, observations: map<Key, Entry>)
  {
    && (forall k :: k in observations <==> k in fleet)
    && (forall k :: k in fleet ==> Says(documents, k, probe, observations[k]))
  }

  /** The loop of `compare` that lines up one probe across the fleet. */
  method LineUp(documents: map<Key, Document>, fleet: seq<Key>, probe: Probe) returns (r: Result<map<Key, Entry>>)
    ensures r.Ok? <==> OnAll(documents, fleet, probe)
    ensures r.Ok? ==> Lined(documents, fleet, probe, r.value)
  {
    var observations: map<Key, Entry> := map[];
    for s := 0 to |fleet|
      invariant Lined(documents, fleet[..s], probe, observations) && OnAll(documents, fleet[..s], probe)
    {
      var k := fleet[s];
      assert k in fleet;
      PrefixSnoc(fleet, s);
      if k !in documents { return Err(MissingProbe); }
      var d := documents[k];
      var at := Position(d, probe);
      if at == |d| {
        assert forall i :: 0 <= i < |d| ==> Probes(d)[i] == d[i].probe;
        return Err(MissingProbe);
      }
      assert Probes(d)[at] == probe;
      observations := observations[k := d[at]];
    }
    WholePrefix(fleet);
    return Ok(observations);
  }

  /** The loop of `compare` that names the servers that differ from the reference. */
  method FindDivergent(observations: map<Key, Entry>, others: seq<Key>, reference: Entry, outcomeOnly: set<Probe>)
    returns (divergent: seq<Key>)
    requires forall k :: k in others ==> k in observations
    ensures divergent == Divergers(observations, others, reference, outcomeOnly)
  {
    divergent := [];
    for s := 0 to |others|
      invariant divergent == Divergers(observations, others[..s], reference, outcomeOnly)
    {
      assert others[..s + 1][..s] == others[..s] && others[s] in others;
      if Differs(observations[others[s]], reference, outcomeOnly) {
        divergent := divergent + [others[s]];
      }
    }
    WholePrefix(others);
  }

  /** One row of `compare`. */
  method CompareProbe(documents: map<Key, Document>, fleet: seq<Key>, outcomeOnly: set<Probe>, probe: Probe)
    returns (r: Result<Row>)
    requires fleet != []
    ensures r.Ok? <==> OnAll(documents, fleet, probe)
    ensures r.Ok? ==> RowFor(documents, fleet, outcomeOnly, probe, r.value)
  {
    var lined := LineUp(documents, fleet, probe);
    if lined.Err? { return Err(lined.error); }
    assert fleet[0] in fleet && forall k :: k in fleet[1..] ==> k in fleet;
    var divergent := FindDivergent(lined.value, fleet[1..], lined.value[fleet[0]], outcomeOnly);
    return Ok(Row(probe, lined.value[fleet[0]].template, lined.value, divergent));
  }

  /** The checks of `compare` on every raw document. */
  method CheckDocuments(documents: map<Key, Document>, expected: Option<seq<Probe>>) returns (error: Option<Error>)
    ensures error == None <==> forall k :: k in documents ==> InventoryFits(documents[k], expected)
  {
    var left := documents.Keys;
    while left != {}
      invariant left <= documents.Keys
      invariant forall k :: k in documents && k !in left ==> InventoryFits(documents[k], expected)
      decreases |left|
    {
      var k :| k in left;
      var duplicated := DuplicateProbes(Probes(documents[k]));
      if duplicated != [] { return Some(DuplicateProbe); }
      if expected.Some? && Probes(documents[k]) != expected.value { return Some(WrongInventory); }
      left := left - {k};
    }
    return None;
  }

  /** `compare`. */
  method Compare(documents: map<Key, Document>, fleet: seq<Key>, outcomeOnly: set<Probe>, expected: Option<seq<Probe>>)
    returns (r: Result<seq<Row>>)
    ensures r.Ok? <==> Comparable(documents, fleet, expected)
    ensures r.Ok? ==> RowsOk(documents, fleet, outcomeOnly, r.value)
  {
    if fleet == [] { return Err(NoFleet); }
    var error := CheckDocuments(documents, expected);
    if error.Some? { return Err(error.value); }
    if fleet[0] !in documents { return Err(NoReference); }
    r := CompareRows(documents, fleet, outcomeOnly, Probes(documents[fleet[0]]));
    if r.Ok? { LinedUpRows(documents, fleet, outcomeOnly, r.value); }
  }

  /** The probe is on every server, and the row shows it. */
  ghost predicate LinedUp(documents: map<Key, Document>, fleet: seq<Key>, outcomeOnly: set<Probe>, probe: Probe, row: Row)
  {
    OnAll(documents, fleet, probe) && RowFor(documents, fleet, outcomeOnly, probe, row)
  }

  /** The loop of `compare` over the probes of the reference. */
  method CompareRows(documents: map<Key, Document>, fleet: seq<Key>, outcomeOnly: set<Probe>, probes: seq<Probe>)
    returns (r: Result<seq<Row>>)
    requires fleet != []
    ensures r.Ok? ==> AllLinedUp(documents, fleet, outcomeOnly, probes, r.value)
    ensures r.Err? ==> exists p :: p in probes && !OnAll(documents, fleet, p)
  {
    var rows: seq<Row> := [];
    for i := 0 to |probes|
      invariant AllLinedUp(documents, fleet, outcomeOnly, probes[..i], rows)
    {
      var row := CompareProbe(documents, fleet, outcomeOnly, probes[i]);
      if row.Err? {
        assert probes[i] in probes;
        return Err(row.error);
      }
      PrefixSnoc(probes, i);
      LineSnoc(documents, fleet, outcomeOnly, probes[..i], probes[i], rows, row.value);
      rows := rows + [row.value];
    }
    WholePrefix(probes);
    return Ok(rows);
  }

  ghost predicate AllLinedUp(documents: map<Key, Document>, fleet: seq<Key>, outcomeOnly: set<Probe>, probes: seq<Probe>, rows: seq<Row>)
  {
    |rows| == |probes| && forall i :: 0 <= i < |rows| ==> LinedUp(documents, fleet, outcomeOnly, probes[i], rows[i])
  }

  lemma LineSnoc(documents: map<Key, Document>, fleet: seq<Key>, outcomeOnly: set<Probe>,
                 probes: seq<Probe>, probe: Probe, rows: seq<Row>, row: Row)
    requires AllLinedUp(documents, fleet, outcomeOnly, probes, rows) && LinedUp(documents, fleet, outcomeOnly, probe, row)
    ensures AllLinedUp(documents, fleet, outcomeOnly, probes + [probe], rows + [row])
  {
    var ps, rs := probes + [probe], rows + [row];
    forall i | 0 <= i < |rs| ensures LinedUp(documents, fleet, outcomeOnly, ps[i], rs[i]) {
      if i < |rows| { assert ps[i] == probes[i] && rs[i] == rows[i]; }
    }
  }

  lemma LinedUpRows(documents: map<Key, Document>, fleet: seq<Key>, outcomeOnly: set<Probe>, rows: seq<Row>)
    requires fleet != [] && fleet[0] in documents
    requires AllLinedUp(documents, fleet, outcomeOnly, Probes(documents[fleet[0]]), rows)
    ensures RowsOk(documents, fleet, outcomeOnly, rows)
    ensures forall i :: 0 <= i < |documents[fleet[0]]| ==> OnAll(documents, fleet, documents[fleet[0]][i].probe)
  {
    var reference := documents[fleet[0]];
    forall i | 0 <= i < |reference|
      ensures RowFor(documents, fleet, outcomeOnly, reference[i].probe, rows[i]) && OnAll(documents, fleet, reference[i].probe)
    {
      assert LinedUp(documents, fleet, outcomeOnly, Probes(reference)[i], rows[i]);
    }
  }

  // ----- validate -----

  ghost predicate InventoryOk(documents: map<Key, Document>, expected: seq<Probe>)
  {
    forall k :: k in documents ==> Probes(documents[k]) == expected && Distinct(expected)
  }

  ghost predicate RowsAccepted(rows: seq<Row>)
  {
    forall i, k :: 0 <= i < |rows| && k in rows[i].observations ==> rows[i].observations[k].outcome == "accepted"
  }

  ghost predicate RowsAgree(rows: seq<Row>)
  {
    forall i :: 0 <= i < |rows| ==> rows[i].divergent == []
  }

  /** `validate`: the four conditions, in order. */
  method Validate(documents: map<Key, Document>, rows: seq<Row>, expected: seq<Probe>) returns (error: Option<Error>)
    ensures error == None <==>
      InventoryOk(documents, expected) && RowsAccepted(rows) && RowsAgree(rows) && |rows| == |expected|
  {
    var left := documents.Keys;
    while left != {}
      invariant left <= documents.Keys
      invariant forall k :: k in documents && k !in left ==> Probes(documents[k]) == expected && Distinct(expected)
      decreases |left|
    {
      var k :| k in left;
      var duplicated := DuplicateProbes(Probes(documents[k]));
      if duplicated != [] { return Some(DuplicateProbe); }
      if Probes(documents[k]) != expected { return Some(WrongInventory); }
      left := left - {k};
    }
    for i := 0 to |rows|
      invariant forall j, k :: 0 <= j < i && k in rows[j].observations ==> rows[j].observations[k].outcome == "accepted"
    {
      if k :| k in rows[i].observations && rows[i].observations[k].outcome != "accepted" {
        return Some(NotAccepted);
      }
    }
    for i := 0 to |rows|
      invariant forall j :: 0 <= j < i ==> rows[j].divergent == []
    {
      if rows[i].divergent != [] { return Some(Divergent); }
    }
    if |rows| != |expected| { return Some(WrongRowCount); }
    return None;
  }

  // ----- what the two together establish -----

  /** Any two servers list exactly the expected probes, in order, and agree at
      every one: accepted, same server code, same detail. */
  ghost predicate FleetAgrees(documents: map<Key, Document>, fleet: seq<Key>, expected: seq<Probe>)
  {
    && Distinct(expected)
    && (forall k :: k in fleet ==> k in documents && Probes(documents[k]) == expected)
    && forall a, b, i :: a in fleet && b in fleet && 0 <= i < |expected| ==>
         Agree(documents[a][i], documents[b][i])
  }

  predicate Agree(a: Entry, b: Entry)
  {
    a.outcome == "accepted" && b.outcome == "accepted" && a.code == b.code && a.detail == b.detail
  }

  /** The entry a row shows for a server is the server's entry at that place. */
  lemma RowShowsEntry(documents: map<Key, Document>, fleet: seq<Key>, row: Row, expected: seq<Probe>, k: Key, i: nat)
    requires RowOk(documents, fleet, {}, row) && k in fleet
    requires k in documents && Probes(documents[k]) == expected && Distinct(expected)
    requires i < |expected| && row.probe == expected[i]
    ensures i < |documents[k]| && row.observations[k] == documents[k][i]
  {
    assert Says(documents, k, row.probe, row.observations[k]);
    assert |Probes(documents[k])| == |documents[k]| && Probes(documents[k])[i] == documents[k][i].probe;
    PositionIs(documents[k], i);
  }

  /** A row without divergent servers, all accepted, is agreement with the reference. */
  lemma RowAgrees(fleet: seq<Key>, documents: map<Key, Document>, row: Row, a: Key)
    requires RowOk(documents, fleet, {}, row) && a in fleet
    requires row.divergent == []
    requires forall k :: k in row.observations ==> row.observations[k].outcome == "accepted"
    ensures Agree(row.observations[a], row.observations[fleet[0]])
  {
    if a != fleet[0] {
      assert a in fleet[1..];
      DivergersAre(row.observations, fleet[1..], row.observations[fleet[0]], {}, a);
    }
  }

  /** Comparisons with the reference alone, plus validation, give agreement of every pair. */
  lemma GateImpliesAgreement(documents: map<Key, Document>, fleet: seq<Key>, rows: seq<Row>, expected: seq<Probe>)
    requires fleet != [] && fleet[0] in documents && (forall k :: k in fleet ==> k in documents)
    requires RowsOk(documents, fleet, {}, rows)
    requires InventoryOk(documents, expected) && RowsAccepted(rows) && RowsAgree(rows) && |rows| == |expected|
    ensures FleetAgrees(documents, fleet, expected)
  {
    assert Probes(documents[fleet[0]]) == expected && fleet[0] in fleet;
    forall a, i | a in fleet && 0 <= i < |expected|
      ensures i < |documents[a]| && Agree(documents[a][i], documents[fleet[0]][i])
    {
      assert expected[i] == documents[fleet[0]][i].probe == rows[i].probe;
      RowShowsEntry(documents, fleet, rows[i], expected, a, i);
      RowShowsEntry(documents, fleet, rows[i], expected, fleet[0], i);
      RowAgrees(fleet, documents, rows[i], a);
    }
    forall a, b, i | a in fleet && b in fleet && 0 <= i < |expected| ensures Agree(documents[a][i], documents[b][i]) {
      assert Agree(documents[a][i], documents[fleet[0]][i]) && Agree(documents[b][i], documents[fleet[0]][i]);
    }
  }

  /** Conversely an agreeing fleet passes. */
  lemma AgreementImpliesGate(documents: map<Key, Document>, fleet: seq<Key>, rows: seq<Row>, expected: seq<Probe>)
    requires fleet != [] && FleetAgrees(documents, fleet, expected) && (forall k :: k in documents ==> k in fleet)
    requires fleet[0] in documents && RowsOk(documents, fleet, {}, rows)
    ensures InventoryOk(documents, expected) && RowsAccepted(rows) && RowsAgree(rows) && |rows| == |expected|
  {
    assert fleet[0] in fleet;
    assert Probes(documents[fleet[0]]) == expected && |rows| == |expected|;
    forall i, k | 0 <= i < |rows| && k in fleet
      ensures rows[i].observations[k].outcome == "accepted"
      ensures !Differs(rows[i].observations[k], rows[i].observations[fleet[0]], {})
    {
      assert expected[i] == documents[fleet[0]][i].probe == rows[i].probe;
      RowShowsEntry(documents, fleet, rows[i], expected, k, i);
      RowShowsEntry(documents, fleet, rows[i], expected, fleet[0], i);
      assert Agree(documents[k][i], documents[fleet[0]][i]);
    }
    forall i | 0 <= i < |rows| ensures rows[i].divergent == [] {
      NoneDivergent(documents, fleet, rows[i]);
    }
  }

  lemma NoneDivergent(documents: map<Key, Document>, fleet: seq<Key>, row: Row)
    requires RowOk(documents, fleet, {}, row)
    requires forall k :: k in fleet ==> !Differs(row.observations[k], row.observations[fleet[0]], {})
    ensures row.divergent == []
  {
    if row.divergent != [] {
      var k := row.divergent[0];
      DivergersAre(row.observations, fleet[1..], row.observations[fleet[0]], {}, k);
    }
  }

  lemma AgreementIsComparable(documents: map<Key, Document>, fleet: seq<Key>, expected: seq<Probe>)
    requires fleet != [] && FleetAgrees(documents, fleet, expected) && (forall k :: k in documents ==> k in fleet)
    ensures Comparable(documents, fleet, None)
  {
    assert fleet[0] in fleet;
    forall i | 0 <= i < |documents[fleet[0]]| ensures OnAll(documents, fleet, documents[fleet[0]][i].probe) {
      assert Probes(documents[fleet[0]])[i] == documents[fleet[0]][i].probe;
    }
  }

  /** With an expected inventory, as in the MariaDB gate, the rows are exactly the
      expected probes in order, each showing what every server said at that place. */
  lemma ComparedInventory(documents: map<Key, Document>, fleet: seq<Key>, expected: seq<Probe>, rows: seq<Row>, k: Key, i: nat)
    requires Comparable(documents, fleet, Some(expected)) && RowsOk(documents, fleet, {}, rows) && k in fleet && k in documents
    ensures |rows| == |expected|
    ensures i < |rows| ==> rows[i].probe == expected[i] && i < |documents[k]| && rows[i].observations[k] == documents[k][i]
  {
    assert InventoryFits(documents[fleet[0]], Some(expected)) && InventoryFits(documents[k], Some(expected));
    assert |Probes(documents[fleet[0]])| == |documents[fleet[0]]|;
    if i < |rows| {
      assert Probes(documents[fleet[0]])[i] == documents[fleet[0]][i].probe;
      RowShowsEntry(documents, fleet, rows[i], expected, k, i);
    }
  }

  /** `compare` and then `validate`: for a fleet of any size both return exactly
      when all servers agree pairwise. */
  method Judge(documents: map<Key, Document>, fleet: seq<Key>, expected: seq<Probe>) returns (passed: bool)
    requires forall k :: k in documents <==> k in fleet
    ensures passed <==> fleet != [] && FleetAgrees(documents, fleet, expected)
  {
    var compared := Compare(documents, fleet, {}, None);
    if fleet != [] && FleetAgrees(documents, fleet, expected) {
      AgreementIsComparable(documents, fleet, expected);
    }
    if compared.Err? { return false; }
    var rows := compared.value;
    var error := Validate(documents, rows, expected);
    passed := error == None;
    if passed {
      GateImpliesAgreement(documents, fleet, rows, expected);
    } else if FleetAgrees(documents, fleet, expected) {
      AgreementImpliesGate(documents, fleet, rows, expected);
    }
  }

  // ----- the verdict on a measured fleet -----

  /** A server with its declared image, what the daemon says runs there, and what was measured. */
  datatype Server = Server(key: Key, digest: string, identities: seq<string>, bootstrap: string, document: Document)

  /** The repository before or after the measurement. */
  datatype Snapshot = Snapshot(changes: seq<string>, head: string)

  predicate EndsWith(s: string, t: string)
  {
    |t| <= |s| && s[|s| - |t|..] == t
  }

  predicate DeclaresImage(identities: seq<string>, digest: string)
  {
    exists i :: 0 <= i < |identities| && (identities[i] == digest || EndsWith(identities[i], "@" + digest))
  }

  function Keys(servers: seq<Server>): (r: seq<Key>)
    ensures |r| == |servers| && forall i :: 0 <= i < |servers| ==> r[i] == servers[i].key
  {
    seq(|servers|, i requires 0 <= i < |servers| => servers[i].key)
  }

  /** The server whose measurement stands under a key: the last one with that key. */
  function Holder(servers: seq<Server>, k: Key): (s: Server)
    requires k in Keys(servers)
    ensures s in servers && s.key == k
  {
    var n := |servers| - 1;
    if servers[n].key == k then servers[n]
    else
      assert Keys(servers) == Keys(servers[..n]) + [servers[n].key];
      Holder(servers[..n], k)
  }

  lemma HolderSnoc(servers: seq<Server>, i: nat, k: Key)
    requires i < |servers| && k in Keys(servers[..i + 1])
    ensures k == servers[i].key ==> Holder(servers[..i + 1], k) == servers[i]
    ensures k != servers[i].key ==> k in Keys(servers[..i]) && Holder(servers[..i + 1], k) == Holder(servers[..i], k)
  {
    assert servers[..i + 1][..i] == servers[..i];
    assert Keys(servers[..i + 1]) == Keys(servers[..i]) + [servers[i].key];
  }

  ghost predicate Collected(servers: seq<Server>, held: map<Key, Server>)
  {
    && (forall k :: k in held <==> k in Keys(servers))
    && (forall k :: k in held ==> held[k] == Holder(servers, k))
  }

  /** The documents by server, as the dictionary comprehension builds them. */
  method Collect(servers: seq<Server>) returns (held: map<Key, Server>)
    ensures Collected(servers, held)
  {
    held := map[];
    for i := 0 to |servers|
      invariant Collected(servers[..i], held)
    {
      assert Keys(servers[..i + 1]) == Keys(servers[..i]) + [servers[i].key];
      held := held[servers[i].key := servers[i]];
      forall k | k in held ensures held[k] == Holder(servers[..i + 1], k) { HolderSnoc(servers, i, k); }
    }
    assert servers[..|servers|] == servers;
  }

  function Documents(held: map<Key, Server>): (r: map<Key, Document>)
    ensures forall k :: k in r <==> k in held
    ensures forall k :: k in held ==> r[k] == held[k].document
  {
    map k | k in held :: held[k].document
  }

  /** A measurement that can be trusted: nothing uncommitted before or after, the
      same commit, every server on its declared image, one bootstrap statement,
      and pairwise agreement of the fleet. */
  ghost predicate Trustworthy(servers: seq<Server>, before: Snapshot, after: Snapshot, expected: seq<Probe>)
  {
    && before.changes == [] && after == before
    && OnDeclaredImages(servers) && OneBootstrap(servers) && ServersAgree(servers, expected)
  }

  ghost predicate OnDeclaredImages(servers: seq<Server>)
  {
    forall i :: 0 <= i < |servers| ==> DeclaresImage(servers[i].identities, servers[i].digest)
  }

  /** There is a server, and all measured the same bootstrap statement. */
  ghost predicate OneBootstrap(servers: seq<Server>)
  {
    && servers != []
    && forall j, k :: j in Keys(servers) && k in Keys(servers) ==> Holder(servers, j).bootstrap == Holder(servers, k).bootstrap
  }

  ghost predicate ServersAgree(servers: seq<Server>, expected: seq<Probe>)
  {
    FleetAgrees(map k | k in Keys(servers) :: Holder(servers, k).document, Keys(servers), expected)
  }

  /** `verdict` of the session matrix, from what the environment answered. */
  method Verdict(servers: seq<Server>, before: Snapshot, after: Snapshot, expected: seq<Probe>) returns (passed: bool)
    ensures passed <==> Trustworthy(servers, before, after, expected)
  {
    if before.changes != [] { return false; }
    var declared := CheckImages(servers);
    if !declared { return false; }
    if after.head != before.head || after.changes != [] { return false; }
    passed := JudgeServers(servers, expected);
  }

  method CheckImages(servers: seq<Server>) returns (declared: bool)
    ensures declared <==> OnDeclaredImages(servers)
  {
    for i := 0 to |servers|
      invariant forall k :: 0 <= k < i ==> DeclaresImage(servers[k].identities, servers[k].digest)
    {
      if !DeclaresImage(servers[i].identities, servers[i].digest) { return false; }
    }
    return true;
  }

  /** The statements measured, and then the comparison. */
  method JudgeServers(servers: seq<Server>, expected: seq<Probe>) returns (passed: bool)
    ensures passed <==> OneBootstrap(servers) && ServersAgree(servers, expected)
  {
    var held := Collect(servers);
    var statements := set k | k in held :: held[k].bootstrap;
    OneStatement(servers, held, statements);
    if |statements| != 1 { return false; }
    assert Documents(held) == map k | k in Keys(servers) :: Holder(servers, k).document;
    passed := Judge(Documents(held), Keys(servers), expected);
  }

  lemma OneStatement(servers: seq<Server>, held: map<Key, Server>, statements: set<string>)
    requires Collected(servers, held) && statements == set k | k in held :: held[k].bootstrap
    ensures |statements| == 1 <==> OneBootstrap(servers)
  {
    if servers == [] {
      assert statements == {};
    } else {
      var first := Keys(servers)[0];
      assert first in Keys(servers) && first in held;
      var x := held[first].bootstrap;
      assert x in statements;
      if |statements| == 1 {
        assert |statements - {x}| == 0;
        forall k | k in Keys(servers) ensures Holder(servers, k).bootstrap == x { assert held[k].bootstrap in statements; }
      }
      if OneBootstrap(servers) { assert statements == {x}; }
    }
  }
}
