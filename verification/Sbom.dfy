/** `render` and `validate` of scripts/render_release_sbom.py: the generator and
    the checker of the release bill of materials. */
module Sbom {
  import opened Text
  import opened SortedText

  type Ref = string
  type Graph = map<Ref, set<Ref>>

  /** A component or dependency record: its reference (`None` when missing or
      not a string) and its other members, taken as opaque text. */
  datatype Component = Component(ref: Option<Ref>, members: map<string, string>)
  datatype Edges = Absent | NotAList | Values(values: seq<Option<Ref>>)
  datatype Dependency = Dependency(ref: Option<Ref>, dependsOn: Edges)
  datatype Header = Header(format: Option<string>, spec: Option<string>, version: Option<int>)

  datatype Bom = Bom(header: Header, identity: map<string, string>,
                     components: Option<seq<Component>>, dependencies: Option<seq<Dependency>>)

  /** What the lock files, the requirement files and the wheels of one release say. */
  datatype Inventory = Inventory(version: string,
                                 cargo: map<Ref, Component>, cargoEdges: Graph,
                                 python: map<Ref, Component>,
                                 wheels: map<Ref, Component>, wheelEdges: Graph)

  datatype Error =
    | BadHeader | MissingReference | DuplicateReference | DuplicateComponent | DuplicateRoot
    | InvalidEdges | DuplicateEdge | DuplicateNode | Dangling
    | WrongIdentity | MissingMember | StaleInventory | StaleAggregate | StaleCargoGraph | StaleWheelGraph

  datatype Result<+T> = Ok(value: T) | Err(error: Error)

  // ----- what the inventories guarantee by construction -----

  predicate Keyed(m: map<Ref, Component>)
  {
    forall r :: r in m ==> r != "" && m[r].ref == Some(r)
  }

  predicate InventoryOk(inv: Inventory)
  {
    && Keyed(inv.cargo) && Keyed(inv.python) && Keyed(inv.wheels)
    && inv.wheels != map[]
    && inv.cargoEdges.Keys == inv.cargo.Keys
    && (forall r :: r in inv.cargoEdges ==> inv.cargoEdges[r] <= inv.cargo.Keys)
    && inv.wheelEdges.Keys <= inv.wheels.Keys
    && (forall r :: r in inv.wheelEdges ==> inv.wheelEdges[r] <= inv.python.Keys)
  }

  function RootRef(inv: Inventory): Ref
  {
    "plenora-release:" + inv.version
  }

  // ----- reading records -----

  predicate RefsOk(refs: seq<Option<Ref>>)
  {
    && (forall i :: 0 <= i < |refs| ==> refs[i].Some? && refs[i].value != "")
    && forall i, j :: 0 <= i < j < |refs| ==> refs[i] != refs[j]
  }

  function ComponentRefs(items: seq<Component>): (r: seq<Option<Ref>>)
    ensures |r| == |items| && forall i :: 0 <= i < |items| ==> r[i] == items[i].ref
  {
    seq(|items|, i requires 0 <= i < |items| => items[i].ref)
  }

  function DependencyRefs(items: seq<Dependency>): (r: seq<Option<Ref>>)
    ensures |r| == |items| && forall i :: 0 <= i < |items| ==> r[i] == items[i].ref
  {
    seq(|items|, i requires 0 <= i < |items| => items[i].ref)
  }

  /** `index` maps each reference to the position of the only record that carries it. */
  ghost predicate Indexes(refs: seq<Option<Ref>>, index: map<Ref, nat>)
  {
    && (forall r :: r in index ==> index[r] < |refs| && refs[index[r]] == Some(r))
    && (forall i :: 0 <= i < |refs| ==> refs[i].Some? && refs[i].value in index && index[refs[i].value] == i)
  }

  /** `index_references`: positions instead of the records themselves. */
  method IndexReferences(refs: seq<Option<Ref>>) returns (r: Result<map<Ref, nat>>)
    ensures r.Ok? <==> RefsOk(refs)
    ensures r.Ok? ==> Indexes(refs, r.value)
  {
    var index: map<Ref, nat> := map[];
    for i := 0 to |refs|
      invariant RefsOk(refs[..i]) && Indexes(refs[..i], index)
    {
      assert refs[..i + 1] == refs[..i] + [refs[i]];
      if refs[i] == None || refs[i].value == "" {
        return Err(MissingReference);
      }
      if refs[i].value in index {
        assert refs[index[refs[i].value]] == refs[i];
        return Err(DuplicateReference);
      }
      index := index[refs[i].value := i];
    }
    assert refs[..|refs|] == refs;
    return Ok(index);
  }

  predicate EdgesOk(e: Edges)
  {
    e.Absent? || (e.Values? && RefsOk(e.values))
  }

  function Targets(e: Edges): set<Ref>
  {
    if e.Values? then set x | x in e.values && x.Some? :: x.value else {}
  }

  predicate DependenciesOk(items: seq<Dependency>)
  {
    RefsOk(DependencyRefs(items)) && forall i :: 0 <= i < |items| ==> EdgesOk(items[i].dependsOn)
  }

  /** The graph a dependency list writes down. */
  ghost predicate Denotes(items: seq<Dependency>, graph: Graph)
  {
    && (forall r :: r in graph ==> exists i :: 0 <= i < |items| && items[i].ref == Some(r))
    && (forall i :: 0 <= i < |items| ==>
          items[i].ref.Some? && items[i].ref.value in graph
          && graph[items[i].ref.value] == Targets(items[i].dependsOn))
  }

  /** The targets of one dependency record. */
  method ReadEdges(edges: Edges) returns (r: Result<set<Ref>>)
    ensures r.Ok? <==> EdgesOk(edges)
    ensures r.Ok? ==> r.value == Targets(edges)
  {
    if edges.NotAList? { return Err(InvalidEdges); }
    if edges.Absent? { return Ok({}); }
    if x :| x in edges.values && (x == None || x.value == "") {
      return Err(InvalidEdges);
    }
    var unique := IndexReferences(edges.values);
    if unique.Err? { return Err(DuplicateEdge); }
    return Ok(Targets(edges));
  }

  /** `dependency_graph`. */
  method DependencyGraph(items: seq<Dependency>) returns (r: Result<Graph>)
    ensures r.Ok? <==> DependenciesOk(items)
    ensures r.Ok? ==> Denotes(items, r.value)
  {
    var index := IndexReferences(DependencyRefs(items));
    if index.Err? { return Err(index.error); }
    var graph: Graph := map[];
    for i := 0 to |items|
      invariant forall k :: 0 <= k < i ==> EdgesOk(items[k].dependsOn)
      invariant Denotes(items[..i], graph)
    {
      assert DependencyRefs(items)[i] == items[i].ref;
      var targets := ReadEdges(items[i].dependsOn);
      if targets.Err? { return Err(targets.error); }
      GraphGrows(items, i, graph);
      graph := graph[items[i].ref.value := targets.value];
    }
    assert items[..|items|] == items;
    return Ok(graph);
  }

  lemma GraphGrows(items: seq<Dependency>, i: nat, graph: Graph)
    requires i < |items| && RefsOk(DependencyRefs(items)) && Denotes(items[..i], graph)
    requires items[i].ref.Some?
    ensures Denotes(items[..i + 1], graph[items[i].ref.value := Targets(items[i].dependsOn)])
  {
    var all, r := items[..i + 1], items[i].ref.value;
    var g := graph[r := Targets(items[i].dependsOn)];
    forall k | 0 <= k < |all|
      ensures all[k].ref.Some? && all[k].ref.value in g && g[all[k].ref.value] == Targets(all[k].dependsOn)
    {
      assert DependencyRefs(items)[k] == items[k].ref && DependencyRefs(items)[i] == items[i].ref;
      if k < i { assert items[..i][k] == all[k]; }
    }
    forall x | x in g ensures exists k :: 0 <= k < |all| && all[k].ref == Some(x) {
      if x == r {
        assert all[i].ref == Some(r);
      } else {
        var k :| 0 <= k < |items[..i]| && items[..i][k].ref == Some(x);
        assert all[k].ref == Some(x);
      }
    }
  }

  /** `check_graph`: every node and every target is known. */
  predicate NoDangling(graph: Graph, known: set<Ref>)
  {
    forall r :: r in graph ==> r in known && graph[r] <= known
  }

  /** Two dependency lists that denote a graph denote the same one. */
  lemma DenotesIsUnique(items: seq<Dependency>, g: Graph, h: Graph)
    requires Denotes(items, g) && Denotes(items, h)
    ensures g == h
  {
    forall r | r in g ensures r in h && g[r] == h[r] {
      var i :| 0 <= i < |items| && items[i].ref == Some(r);
    }
    forall r | r in h ensures r in g {
      var i :| 0 <= i < |items| && items[i].ref == Some(r);
    }
  }

  // ----- components -----

  /** The table a component list writes down. */
  ghost predicate Lists(items: seq<Component>, table: map<Ref, Component>)
  {
    && (forall r :: r in table ==> r != "" && table[r].ref == Some(r) && table[r] in items)
    && (forall i :: 0 <= i < |items| ==>
          items[i].ref.Some? && items[i].ref.value in table && table[items[i].ref.value] == items[i])
  }

  method IndexComponents(items: seq<Component>) returns (r: Result<map<Ref, Component>>)
    ensures r.Ok? <==> RefsOk(ComponentRefs(items))
    ensures r.Ok? ==> Lists(items, r.value)
  {
    var index := IndexReferences(ComponentRefs(items));
    match index {
      case Err(e) => return Err(e);
      case Ok(at) =>
        var table := map x | x in at :: items[at[x]];
        assert forall i :: 0 <= i < |items| ==> ComponentRefs(items)[i] == items[i].ref;
        return Ok(table);
    }
  }

  lemma ListsIsUnique(items: seq<Component>, t: map<Ref, Component>, u: map<Ref, Component>)
    requires Lists(items, t) && Lists(items, u)
    ensures t == u
  {
    forall r | r in t ensures r in u && t[r] == u[r] {
      var i :| 0 <= i < |items| && items[i] == t[r];
    }
    forall r | r in u ensures r in t {
      var i :| 0 <= i < |items| && items[i] == u[r];
    }
  }

  // ----- header and identity -----

  predicate HeaderOk(h: Header)
  {
    && h.format == Some("CycloneDX")
    && (h.spec == Some("1.6") || h.spec == Some("1.7"))
    && h.version.Some? && h.version.value >= 1
  }

  function Has(m: map<string, string>, key: string): Option<string>
  {
    if key in m then Some(m[key]) else None
  }

  predicate IdentityOk(inv: Inventory, identity: map<string, string>)
  {
    && Has(identity, "type") == Some("application")
    && Has(identity, "name") == Some("plenora-database-tools")
    && Has(identity, "version") == Some(inv.version)
    && Has(identity, "bom-ref") == Some(RootRef(inv))
  }

  function Expected(inv: Inventory): map<Ref, Component>
  {
    inv.cargo + inv.python + inv.wheels
  }

  // ----- what validation means -----

  /** Every member of the inventories is there, unchanged. */
  predicate Covers(inv: Inventory, table: map<Ref, Component>)
  {
    forall r :: r in Expected(inv) ==> r in table && table[r] == Expected(inv)[r]
  }

  /** Every inventoried node has exactly its inventory edges. */
  predicate Agrees(edges: Graph, graph: Graph)
  {
    forall r :: r in edges ==> r in graph && graph[r] == edges[r]
  }

  /** The promise of an accepted bill: references are unique and non-empty, the
      root is not a component, the inventories are covered, no edge dangles,
      the root depends on exactly all components, and Cargo and wheel nodes
      have exactly their inventory edges. */
  ghost predicate Accepted(inv: Inventory, bom: Bom)
  {
    && HeaderOk(bom.header) && IdentityOk(inv, bom.identity)
    && bom.components.Some? && bom.dependencies.Some?
    && RefsOk(ComponentRefs(bom.components.value)) && DependenciesOk(bom.dependencies.value)
    && exists table, graph ::
         && Lists(bom.components.value, table) && Denotes(bom.dependencies.value, graph)
         && Faithful(inv, RootRef(inv), table, graph)
  }

  predicate Faithful(inv: Inventory, root: Ref, table: map<Ref, Component>, graph: Graph)
  {
    && root !in table
    && Covers(inv, table)
    && NoDangling(graph, table.Keys + {root})
    && root in graph && graph[root] == table.Keys
    && Agrees(inv.cargoEdges, graph) && Agrees(inv.wheelEdges, graph)
  }

  /** The comparisons of `validate` with the inventories, in its order. */
  method CheckFaithful(inv: Inventory, root: Ref, table: map<Ref, Component>, graph: Graph) returns (error: Option<Error>)
    requires root !in table && Covers(inv, table)
    ensures error == None <==> Faithful(inv, root, table, graph)
  {
    if !NoDangling(graph, table.Keys + {root}) { return Some(Dangling); }
    if root !in graph || graph[root] != table.Keys { return Some(StaleAggregate); }
    if !Agrees(inv.cargoEdges, graph) { return Some(StaleCargoGraph); }
    if !Agrees(inv.wheelEdges, graph) { return Some(StaleWheelGraph); }
    return None;
  }

  /** A bill is accepted on the strength of the only table and graph it can mean. */
  lemma AcceptedMeans(inv: Inventory, bom: Bom, table: map<Ref, Component>, graph: Graph)
    requires bom.components.Some? && bom.dependencies.Some?
    requires Lists(bom.components.value, table) && Denotes(bom.dependencies.value, graph)
    ensures Accepted(inv, bom) ==> Faithful(inv, RootRef(inv), table, graph)
  {
    if Accepted(inv, bom) {
      var t, g :| Lists(bom.components.value, t) && Denotes(bom.dependencies.value, g)
                  && Faithful(inv, RootRef(inv), t, g);
      ListsIsUnique(bom.components.value, t, table);
      DenotesIsUnique(bom.dependencies.value, g, graph);
    }
  }

  lemma AcceptedCovers(inv: Inventory, bom: Bom, table: map<Ref, Component>)
    requires bom.components.Some? && Lists(bom.components.value, table)
    ensures Accepted(inv, bom) ==> RootRef(inv) !in table && Covers(inv, table)
  {
    if Accepted(inv, bom) {
      var t, g :| Lists(bom.components.value, t) && Denotes(bom.dependencies.value, g)
                  && Faithful(inv, RootRef(inv), t, g);
      ListsIsUnique(bom.components.value, t, table);
    }
  }

  /** `validate`: raises exactly on the bills that break the promise. */
  method Validate(inv: Inventory, bom: Bom) returns (error: Option<Error>)
    ensures error == None <==> Accepted(inv, bom)
  {
    if !HeaderOk(bom.header) { return Some(BadHeader); }
    if !IdentityOk(inv, bom.identity) { return Some(WrongIdentity); }
    if bom.components == None { return Some(MissingMember); }
    var actual := IndexComponents(bom.components.value);
    if actual.Err? { return Some(actual.error); }
    var table := actual.value;
    AcceptedCovers(inv, bom, table);
    if RootRef(inv) in table { return Some(DuplicateRoot); }
    if !Covers(inv, table) { return Some(StaleInventory); }
    if bom.dependencies == None { return Some(MissingMember); }
    var read := DependencyGraph(bom.dependencies.value);
    if read.Err? { return Some(read.error); }
    AcceptedMeans(inv, bom, table, read.value);
    error := CheckFaithful(inv, RootRef(inv), table, read.value);
  }

  // ----- what rendering means -----

  function OrEmpty<T>(items: Option<seq<T>>): seq<T>
  {
    if items.Some? then items.value else []
  }

  /** All components: the artifact's, then the three inventories. */
  function Supplied(inv: Inventory, table: map<Ref, Component>): map<Ref, Component>
  {
    table + inv.cargo + inv.python + inv.wheels
  }

  function Total(inv: Inventory, root: Ref, table: map<Ref, Component>, graph: Graph): Graph
  {
    (graph + inv.cargoEdges + inv.wheelEdges)[root := Supplied(inv, table).Keys]
  }

  /** No reference is supplied twice, and the root is not among them. */
  predicate ComponentsJoin(inv: Inventory, root: Ref, table: map<Ref, Component>)
  {
    && table.Keys !! inv.cargo.Keys
    && table.Keys + inv.cargo.Keys !! inv.python.Keys
    && table.Keys + inv.cargo.Keys + inv.python.Keys !! inv.wheels.Keys
    && root !in Supplied(inv, table)
  }

  predicate GraphsJoin(inv: Inventory, root: Ref, table: map<Ref, Component>, graph: Graph)
  {
    && graph.Keys !! inv.cargoEdges.Keys + inv.wheelEdges.Keys + {root}
    && NoDangling(Total(inv, root, table, graph), Supplied(inv, table).Keys + {root})
  }

  predicate Combinable(inv: Inventory, root: Ref, table: map<Ref, Component>, graph: Graph)
  {
    ComponentsJoin(inv, root, table) && GraphsJoin(inv, root, table, graph)
  }

  /** `bom` is the rendering of an artifact bill that lists `table` and `graph`. */
  ghost predicate IsRendering(inv: Inventory, header: Header, table: map<Ref, Component>, graph: Graph, bom: Bom)
  {
    && Combinable(inv, RootRef(inv), table, graph)
    && bom.header == header && HeaderOk(header)
    && IdentityOk(inv, bom.identity)
    && bom.components.Some? && bom.dependencies.Some?
    && WritesComponents(bom.components.value, Supplied(inv, table))
    && WritesGraph(bom.dependencies.value, Total(inv, RootRef(inv), table, graph))
  }

  /** The components of a table, in the order of their references. */
  ghost predicate WritesComponents(items: seq<Component>, table: map<Ref, Component>)
  {
    exists refs ::
      && Ascending(refs) && (forall x :: x in refs <==> x in table) && |items| == |refs|
      && forall i :: 0 <= i < |refs| ==> items[i] == table[refs[i]]
  }

  /** The nodes of a graph in order, each with its targets in order. */
  ghost predicate WritesGraph(items: seq<Dependency>, graph: Graph)
  {
    exists refs ::
      && Ascending(refs) && (forall x :: x in refs <==> x in graph) && |items| == |refs|
      && forall i :: 0 <= i < |refs| ==> WritesNode(items[i], refs[i], graph[refs[i]])
  }

  ghost predicate WritesNode(item: Dependency, ref: Ref, targets: set<Ref>)
  {
    exists values ::
      && Ascending(values) && (forall x :: x in values <==> x in targets)
      && item == Dependency(Some(ref), Values(Somes(values)))
  }

  function Somes(values: seq<Ref>): (r: seq<Option<Ref>>)
    ensures |r| == |values| && forall i :: 0 <= i < |values| ==> r[i] == Some(values[i])
  {
    seq(|values|, i requires 0 <= i < |values| => Some(values[i]))
  }

  method WriteComponents(table: map<Ref, Component>) returns (items: seq<Component>)
    ensures WritesComponents(items, table)
  {
    var refs := Sorted(table.Keys);
    items := seq(|refs|, i requires 0 <= i < |refs| => assert refs[i] in refs; table[refs[i]]);
  }

  method WriteGraph(graph: Graph) returns (items: seq<Dependency>)
    ensures WritesGraph(items, graph)
  {
    var refs := Sorted(graph.Keys);
    items := [];
    for i := 0 to |refs|
      invariant |items| == i
      invariant forall k :: 0 <= k < i ==> refs[k] in graph && WritesNode(items[k], refs[k], graph[refs[k]])
    {
      assert refs[i] in refs;
      var values := Sorted(graph[refs[i]]);
      var item := Dependency(Some(refs[i]), Values(Somes(values)));
      assert WritesNode(item, refs[i], graph[refs[i]]);
      items := items + [item];
    }
  }

  ghost predicate Renderable(inv: Inventory, artifact: Bom)
  {
    && HeaderOk(artifact.header)
    && RefsOk(ComponentRefs(OrEmpty(artifact.components)))
    && DependenciesOk(OrEmpty(artifact.dependencies))
    && exists table, graph ::
         && Lists(OrEmpty(artifact.components), table) && Denotes(OrEmpty(artifact.dependencies), graph)
         && Combinable(inv, RootRef(inv), table, graph)
  }

  /** The component joins of `render`, with its duplicate checks in order. */
  method JoinComponents(inv: Inventory, root: Ref, table: map<Ref, Component>) returns (r: Result<map<Ref, Component>>)
    ensures r.Ok? <==> ComponentsJoin(inv, root, table)
    ensures r.Ok? ==> r.value == Supplied(inv, table)
  {
    if !(table.Keys !! inv.cargo.Keys) { return Err(DuplicateComponent); }
    var supplied := table + inv.cargo;
    assert supplied.Keys == table.Keys + inv.cargo.Keys;
    if !(supplied.Keys !! inv.python.Keys) { return Err(DuplicateComponent); }
    supplied := supplied + inv.python;
    assert supplied.Keys == table.Keys + inv.cargo.Keys + inv.python.Keys;
    if !(supplied.Keys !! inv.wheels.Keys) { return Err(DuplicateComponent); }
    supplied := supplied + inv.wheels;
    if root in supplied { return Err(DuplicateRoot); }
    return Ok(supplied);
  }

  /** The graph joins of `render`, with its duplicate and dangling checks. */
  method JoinGraphs(inv: Inventory, root: Ref, table: map<Ref, Component>, graph: Graph) returns (r: Result<Graph>)
    ensures r.Ok? <==> GraphsJoin(inv, root, table, graph)
    ensures r.Ok? ==> r.value == Total(inv, root, table, graph)
  {
    if !(graph.Keys !! inv.cargoEdges.Keys + inv.wheelEdges.Keys + {root}) { return Err(DuplicateNode); }
    var total := Total(inv, root, table, graph);
    if !NoDangling(total, Supplied(inv, table).Keys + {root}) { return Err(Dangling); }
    return Ok(total);
  }

  function Identity(inv: Inventory): (r: map<string, string>)
    ensures IdentityOk(inv, r)
  {
    map["type" := "application", "bom-ref" := RootRef(inv), "name" := "plenora-database-tools", "version" := inv.version]
  }

  /** An artifact bill renders on the strength of the only table and graph it can mean. */
  lemma RenderableMeans(inv: Inventory, artifact: Bom, table: map<Ref, Component>, graph: Graph)
    requires Lists(OrEmpty(artifact.components), table) && Denotes(OrEmpty(artifact.dependencies), graph)
    ensures Renderable(inv, artifact) ==> Combinable(inv, RootRef(inv), table, graph)
  {
    if Renderable(inv, artifact) {
      var t, g :| Lists(OrEmpty(artifact.components), t) && Denotes(OrEmpty(artifact.dependencies), g)
                  && Combinable(inv, RootRef(inv), t, g);
      ListsIsUnique(OrEmpty(artifact.components), t, table);
      DenotesIsUnique(OrEmpty(artifact.dependencies), g, graph);
    }
  }

  lemma RenderableJoins(inv: Inventory, artifact: Bom, table: map<Ref, Component>)
    requires Lists(OrEmpty(artifact.components), table)
    ensures Renderable(inv, artifact) ==> ComponentsJoin(inv, RootRef(inv), table)
  {
    if Renderable(inv, artifact) {
      var t, g :| Lists(OrEmpty(artifact.components), t) && Denotes(OrEmpty(artifact.dependencies), g)
                  && Combinable(inv, RootRef(inv), t, g);
      ListsIsUnique(OrEmpty(artifact.components), t, table);
    }
  }

  /** The joined tables written out. */
  method WriteBom(inv: Inventory, header: Header, table: map<Ref, Component>, graph: Graph) returns (bom: Bom)
    requires HeaderOk(header) && Combinable(inv, RootRef(inv), table, graph)
    ensures IsRendering(inv, header, table, graph, bom)
  {
    var components := WriteComponents(Supplied(inv, table));
    var dependencies := WriteGraph(Total(inv, RootRef(inv), table, graph));
    bom := Bom(header, Identity(inv), Some(components), Some(dependencies));
  }

  /** `render`: succeeds exactly when the artifact bill can be combined with the
      inventories, and then writes the combination. */
  method Render(inv: Inventory, artifact: Bom) returns (r: Result<Bom>, ghost table: map<Ref, Component>, ghost graph: Graph)
    ensures r.Ok? <==> Renderable(inv, artifact)
    ensures r.Ok? ==> Lists(OrEmpty(artifact.components), table) && Denotes(OrEmpty(artifact.dependencies), graph)
    ensures r.Ok? ==> IsRendering(inv, artifact.header, table, graph, r.value)
  {
    table, graph := map[], map[];
    if !HeaderOk(artifact.header) { r := Err(BadHeader); return; }
    var indexed := IndexComponents(OrEmpty(artifact.components));
    if indexed.Err? { r := Err(indexed.error); return; }
    table := indexed.value;
    RenderableJoins(inv, artifact, table);
    var supplied := JoinComponents(inv, RootRef(inv), indexed.value);
    if supplied.Err? { r := Err(supplied.error); return; }
    var read := DependencyGraph(OrEmpty(artifact.dependencies));
    if read.Err? { r := Err(read.error); return; }
    graph := read.value;
    RenderableMeans(inv, artifact, table, graph);
    var total := JoinGraphs(inv, RootRef(inv), indexed.value, read.value);
    if total.Err? { r := Err(total.error); return; }
    var bom := WriteBom(inv, artifact.header, indexed.value, read.value);
    r := Ok(bom);
  }
}
