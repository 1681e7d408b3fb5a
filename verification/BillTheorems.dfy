/** `validate` and `render` on the lists of a bill themselves, without the tables
    and graphs they are read into. */
module BillTheorems {
  import opened Text
  import opened SortedText
  import opened Sbom
  import opened SbomTheorems

  // ----- what a list of records says -----

  /** Every record carries a non-empty reference of its own. */
  ghost predicate Identifies(refs: seq<Option<Ref>>)
  {
    forall i :: 0 <= i < |refs| ==> refs[i].Some? && refs[i].value != "" && forall j :: 0 <= j < i ==> refs[j] != refs[i]
  }

  /** A dependency record may leave out its targets, but not repeat one or name an empty one. */
  ghost predicate WellListed(e: Edges)
  {
    !e.NotAList? && (e.Values? ==> Identifies(e.values))
  }

  predicate Carries(items: seq<Component>, ref: Ref)
  {
    exists i :: 0 <= i < |items| && items[i].ref == Some(ref)
  }

  predicate IsNode(items: seq<Dependency>, ref: Ref)
  {
    exists i :: 0 <= i < |items| && items[i].ref == Some(ref)
  }

  /** Some record of `ref` names `target`. */
  predicate Edge(items: seq<Dependency>, ref: Ref, target: Ref)
  {
    exists i :: 0 <= i < |items| && items[i].ref == Some(ref) && items[i].dependsOn.Values?
             && Some(target) in items[i].dependsOn.values
  }

  predicate Stated(m: map<string, string>, key: string, value: string)
  {
    key in m && m[key] == value
  }

  predicate Identity(version: string, identity: map<string, string>)
  {
    && Stated(identity, "type", "application") && Stated(identity, "name", "plenora-database-tools")
    && Stated(identity, "version", version) && Stated(identity, "bom-ref", "plenora-release:" + version)
  }

  predicate Supported(h: Header)
  {
    h.format == Some("CycloneDX") && h.spec in {Some("1.6"), Some("1.7")} && h.version.Some? && h.version.value > 0
  }

  /** The inventoried component of a reference; of two, that of the later inventory. */
  predicate Inventoried(inv: Inventory, ref: Ref, c: Component)
  {
    if ref in inv.wheels then inv.wheels[ref] == c
    else if ref in inv.python then inv.python[ref] == c
    else ref in inv.cargo && inv.cargo[ref] == c
  }

  // ----- from lists to tables -----

  lemma IdentifiesIsRefsOk(refs: seq<Option<Ref>>)
    ensures RefsOk(refs) <==> Identifies(refs)
  {
    if Identifies(refs) {
      forall i, j | 0 <= i < j < |refs| ensures refs[i] != refs[j] {}
    }
  }

  lemma WellListedIsOk(e: Edges)
    ensures EdgesOk(e) <==> WellListed(e)
  {
    if e.Values? { IdentifiesIsRefsOk(e.values); }
  }

  lemma TableOf(items: seq<Component>, table: map<Ref, Component>)
    requires Lists(items, table)
    ensures forall ref :: ref in table <==> Carries(items, ref)
    ensures forall c: Component, ref :: c.ref == Some(ref) ==> (c in items <==> ref in table && table[ref] == c)
  {
    forall ref | ref in table ensures Carries(items, ref) {
      var i :| 0 <= i < |items| && items[i] == table[ref];
    }
  }

  lemma TargetsAre(e: Edges, target: Ref)
    ensures target in Targets(e) <==> e.Values? && Some(target) in e.values
  {
    if e.Values? && Some(target) in e.values {
      var x := Some(target);
      assert x in e.values && x.Some? && x.value == target;
    }
  }

  lemma GraphOf(items: seq<Dependency>, graph: Graph)
    requires Denotes(items, graph)
    ensures forall ref :: ref in graph <==> IsNode(items, ref)
    ensures forall ref, target :: ref in graph && target in graph[ref] <==> Edge(items, ref, target)
  {
    forall ref, target ensures ref in graph && target in graph[ref] <==> Edge(items, ref, target) {
      if ref in graph {
        var i :| 0 <= i < |items| && items[i].ref == Some(ref);
        TargetsAre(items[i].dependsOn, target);
      }
      if Edge(items, ref, target) {
        var i :| 0 <= i < |items| && items[i].ref == Some(ref) && items[i].dependsOn.Values?
                 && Some(target) in items[i].dependsOn.values;
        TargetsAre(items[i].dependsOn, target);
      }
    }
  }

  /** Lists that are well formed have a table and a graph. */
  lemma ListsHaveTable(items: seq<Component>) returns (table: map<Ref, Component>)
    requires RefsOk(ComponentRefs(items))
    ensures Lists(items, table)
  {
    table := map[];
    for i := 0 to |items|
      invariant Lists(items[..i], table)
    {
      var c, all := items[i], items[..i + 1];
      assert ComponentRefs(items)[i] == c.ref;
      assert all == items[..i] + [c];
      forall k | 0 <= k < i ensures items[k].ref != c.ref { assert ComponentRefs(items)[k] == items[k].ref; }
      table := table[c.ref.value := c];
    }
    assert items[..|items|] == items;
  }

  lemma ListsHaveGraph(items: seq<Dependency>) returns (graph: Graph)
    requires DependenciesOk(items)
    ensures Denotes(items, graph)
  {
    graph := map[];
    for i := 0 to |items|
      invariant Denotes(items[..i], graph)
    {
      assert DependencyRefs(items)[i] == items[i].ref;
      GraphGrows(items, i, graph);
      graph := graph[items[i].ref.value := Targets(items[i].dependsOn)];
    }
    assert items[..|items|] == items;
  }

  /** The records of a list are well formed. */
  ghost predicate Readable(cs: seq<Component>, ds: seq<Dependency>)
  {
    && Identifies(ComponentRefs(cs)) && Identifies(DependencyRefs(ds))
    && forall i :: 0 <= i < |ds| ==> WellListed(ds[i].dependsOn)
  }

  lemma ReadableIsOk(cs: seq<Component>, ds: seq<Dependency>)
    ensures Readable(cs, ds) <==> RefsOk(ComponentRefs(cs)) && DependenciesOk(ds)
  {
    IdentifiesIsRefsOk(ComponentRefs(cs));
    IdentifiesIsRefsOk(DependencyRefs(ds));
    forall i | 0 <= i < |ds| ensures EdgesOk(ds[i].dependsOn) <==> WellListed(ds[i].dependsOn) { WellListedIsOk(ds[i].dependsOn); }
  }

  // ----- validate -----

  /** `ref` is the root of the release or a component of the list. */
  predicate Known(root: Ref, cs: seq<Component>, ref: Ref)
  {
    ref == root || Carries(cs, ref)
  }

  ghost predicate NoneDangles(root: Ref, cs: seq<Component>, ds: seq<Dependency>)
  {
    && (forall ref :: IsNode(ds, ref) ==> Known(root, cs, ref))
    && (forall ref, target :: Edge(ds, ref, target) ==> Known(root, cs, target))
  }

  /** The root has a node, and its targets are exactly the components. */
  ghost predicate RootHoldsAll(root: Ref, cs: seq<Component>, ds: seq<Dependency>)
  {
    !Carries(cs, root) && IsNode(ds, root) && forall ref :: Edge(ds, root, ref) <==> Carries(cs, ref)
  }

  /** Every inventoried node is there with exactly its inventoried edges. */
  ghost predicate SameEdges(edges: Graph, ds: seq<Dependency>)
  {
    forall ref :: ref in edges ==> IsNode(ds, ref) && forall target :: Edge(ds, ref, target) <==> target in edges[ref]
  }

  /** Every inventoried component is there as it was inventoried. */
  ghost predicate HoldsInventory(inv: Inventory, cs: seq<Component>)
  {
    forall ref, c :: Inventoried(inv, ref, c) ==> exists i :: 0 <= i < |cs| && cs[i] == c && c.ref == Some(ref)
  }

  ghost predicate Complete(inv: Inventory, bom: Bom)
  {
    && Supported(bom.header) && Identity(inv.version, bom.identity)
    && bom.components.Some? && bom.dependencies.Some?
    && var root, cs, ds := "plenora-release:" + inv.version, bom.components.value, bom.dependencies.value;
    && Readable(cs, ds) && HoldsInventory(inv, cs) && RootHoldsAll(root, cs, ds) && NoneDangles(root, cs, ds)
    && SameEdges(inv.cargoEdges, ds) && SameEdges(inv.wheelEdges, ds)
  }

  lemma CoversIs(inv: Inventory, cs: seq<Component>, table: map<Ref, Component>)
    requires Lists(cs, table)
    ensures Covers(inv, table) <==> HoldsInventory(inv, cs)
  {
    if Covers(inv, table) {
      forall ref, c | Inventoried(inv, ref, c) ensures exists i :: 0 <= i < |cs| && cs[i] == c && c.ref == Some(ref) {
        assert Expected(inv)[ref] == c;
        assert table[ref] in cs;
      }
    }
    if HoldsInventory(inv, cs) {
      forall ref | ref in Expected(inv) ensures ref in table && table[ref] == Expected(inv)[ref] {
        assert Inventoried(inv, ref, Expected(inv)[ref]);
      }
    }
  }

  lemma AgreesIs(edges: Graph, ds: seq<Dependency>, graph: Graph)
    requires Denotes(ds, graph)
    ensures Agrees(edges, graph) <==> SameEdges(edges, ds)
  {
    GraphOf(ds, graph);
    if SameEdges(edges, ds) {
      forall ref | ref in edges ensures ref in graph && graph[ref] == edges[ref] {
        assert IsNode(ds, ref);
        forall target ensures target in graph[ref] <==> target in edges[ref] {
          assert Edge(ds, ref, target) <==> target in graph[ref];
        }
      }
    }
    if Agrees(edges, graph) {
      forall ref | ref in edges
        ensures IsNode(ds, ref) && forall target :: Edge(ds, ref, target) <==> target in edges[ref]
      {
        assert ref in graph && graph[ref] == edges[ref];
      }
    }
  }

  /** Nodes and targets of a list are nodes and targets of its graph. */
  lemma EndsWithin(ds: seq<Dependency>, graph: Graph, known: set<Ref>)
    requires Denotes(ds, graph)
    ensures NoDangling(graph, known)
       <==> && (forall ref :: IsNode(ds, ref) ==> ref in known)
            && forall ref, target :: Edge(ds, ref, target) ==> target in known
  {
    GraphOf(ds, graph);
    hide Denotes, IsNode, Edge;
    if NoDangling(graph, known) {
      forall ref, target | Edge(ds, ref, target) ensures target in known { assert ref in graph && graph[ref] <= known; }
    } else {
      var ref :| ref in graph && !(ref in known && graph[ref] <= known);
      assert IsNode(ds, ref);
      if ref in known {
        var target :| target in graph[ref] && target !in known;
        assert Edge(ds, ref, target);
      }
    }
  }

  lemma DanglingIs(root: Ref, cs: seq<Component>, ds: seq<Dependency>, table: map<Ref, Component>, graph: Graph)
    requires Lists(cs, table) && Denotes(ds, graph)
    ensures NoDangling(graph, table.Keys + {root}) <==> NoneDangles(root, cs, ds)
  {
    TableOf(cs, table);
    EndsWithin(ds, graph, table.Keys + {root});
    hide NoDangling, Lists, Denotes, IsNode, Edge, Carries;
  }

  lemma RootIs(root: Ref, cs: seq<Component>, ds: seq<Dependency>, table: map<Ref, Component>, graph: Graph)
    requires Lists(cs, table) && Denotes(ds, graph)
    ensures root !in table && root in graph && graph[root] == table.Keys <==> RootHoldsAll(root, cs, ds)
  {
    TableOf(cs, table);
    GraphOf(ds, graph);
    if root in graph {
      forall ref ensures Edge(ds, root, ref) <==> ref in graph[root] {}
      if RootHoldsAll(root, cs, ds) {
        forall ref ensures ref in graph[root] <==> ref in table.Keys { assert Edge(ds, root, ref) <==> Carries(cs, ref); }
      }
    }
  }

  lemma FaithfulIs(inv: Inventory, root: Ref, cs: seq<Component>, ds: seq<Dependency>,
                   table: map<Ref, Component>, graph: Graph)
    requires Lists(cs, table) && Denotes(ds, graph)
    ensures Faithful(inv, root, table, graph)
       <==> HoldsInventory(inv, cs) && RootHoldsAll(root, cs, ds) && NoneDangles(root, cs, ds)
            && SameEdges(inv.cargoEdges, ds) && SameEdges(inv.wheelEdges, ds)
  {
    hide Lists, Denotes, Covers, NoDangling, Agrees, HoldsInventory, NoneDangles, SameEdges, RootHoldsAll;
    CoversIs(inv, cs, table);
    RootIs(root, cs, ds, table, graph);
    DanglingIs(root, cs, ds, table, graph);
    AgreesIs(inv.cargoEdges, ds, graph);
    AgreesIs(inv.wheelEdges, ds, graph);
  }

  lemma AcceptedOn(inv: Inventory, bom: Bom, table: map<Ref, Component>, graph: Graph)
    requires bom.components.Some? && bom.dependencies.Some? && Readable(bom.components.value, bom.dependencies.value)
    requires Lists(bom.components.value, table) && Denotes(bom.dependencies.value, graph)
    ensures Accepted(inv, bom)
       <==> HeaderOk(bom.header) && IdentityOk(inv, bom.identity) && Faithful(inv, RootRef(inv), table, graph)
  {
    hide Lists, Denotes, Faithful, HeaderOk, IdentityOk;
    ReadableIsOk(bom.components.value, bom.dependencies.value);
    AcceptedMeans(inv, bom, table, graph);
  }

  lemma HeadIs(inv: Inventory, bom: Bom)
    ensures HeaderOk(bom.header) <==> Supported(bom.header)
    ensures IdentityOk(inv, bom.identity) <==> Identity(inv.version, bom.identity)
  {}

  /** `validate` accepts a bill iff its lists say all of this. */
  lemma AcceptedExactly(inv: Inventory, bom: Bom)
    ensures Accepted(inv, bom) <==> Complete(inv, bom)
  {
    if bom.components.Some? && bom.dependencies.Some? {
      var cs, ds := bom.components.value, bom.dependencies.value;
      ReadableIsOk(cs, ds);
      HeadIs(inv, bom);
      hide Lists, Denotes, Faithful, Readable, HoldsInventory, NoneDangles, SameEdges, RootHoldsAll;
      hide HeaderOk, Supported, IdentityOk, Identity;
      if Readable(cs, ds) {
        hide Accepted;
        var table := ListsHaveTable(cs);
        var graph := ListsHaveGraph(ds);
        AcceptedOn(inv, bom, table, graph);
        FaithfulIs(inv, RootRef(inv), cs, ds, table, graph);
      }
    }
  }

  // ----- render -----

  /** One of the three inventories has `ref`. */
  predicate Supplies(inv: Inventory, ref: Ref)
  {
    ref in inv.cargo || ref in inv.python || ref in inv.wheels
  }

  /** No component is supplied twice, and the root is none of them. */
  ghost predicate NewComponents(inv: Inventory, root: Ref, cs: seq<Component>)
  {
    && (forall ref :: Carries(cs, ref) ==> !Supplies(inv, ref))
    && inv.cargo.Keys !! inv.python.Keys && inv.cargo.Keys !! inv.wheels.Keys && inv.python.Keys !! inv.wheels.Keys
    && !Carries(cs, root) && !Supplies(inv, root)
  }

  /** No node of the artifact is inventoried too, or the root. */
  ghost predicate NewNodes(inv: Inventory, root: Ref, ds: seq<Dependency>)
  {
    forall ref :: IsNode(ds, ref) ==> ref !in inv.cargoEdges && ref !in inv.wheelEdges && ref != root
  }

  /** The nodes and edges of the artifact end at known components. */
  ghost predicate NoLooseEnd(inv: Inventory, root: Ref, cs: seq<Component>, ds: seq<Dependency>)
  {
    && (forall ref :: IsNode(ds, ref) ==> Carries(cs, ref) || Supplies(inv, ref))
    && forall ref, target :: Edge(ds, ref, target) ==> target == root || Carries(cs, target) || Supplies(inv, target)
  }

  /** What `render` demands of an artifact bill. */
  ghost predicate Fits(inv: Inventory, artifact: Bom)
  {
    var root, cs, ds := "plenora-release:" + inv.version, OrEmpty(artifact.components), OrEmpty(artifact.dependencies);
    && Supported(artifact.header) && Readable(cs, ds)
    && NewComponents(inv, root, cs) && NewNodes(inv, root, ds) && NoLooseEnd(inv, root, cs, ds)
  }

  lemma SuppliedIs(inv: Inventory, cs: seq<Component>, table: map<Ref, Component>)
    requires Lists(cs, table)
    ensures forall ref :: ref in Supplied(inv, table) <==> Carries(cs, ref) || Supplies(inv, ref)
  {
    TableOf(cs, table);
  }

  lemma ComponentsJoinIs(inv: Inventory, root: Ref, cs: seq<Component>, table: map<Ref, Component>)
    requires Lists(cs, table)
    ensures ComponentsJoin(inv, root, table) <==> NewComponents(inv, root, cs)
  {
    TableOf(cs, table);
    SuppliedIs(inv, cs, table);
    assert (forall ref :: Carries(cs, ref) ==> !Supplies(inv, ref))
      <==> table.Keys !! inv.cargo.Keys && table.Keys !! inv.python.Keys && table.Keys !! inv.wheels.Keys;
  }

  /** Only the edges of the artifact can dangle in the joined graph. */
  lemma TotalDangles(inv: Inventory, root: Ref, table: map<Ref, Component>, graph: Graph)
    requires InventoryOk(inv) && ComponentsJoin(inv, root, table)
    requires graph.Keys !! inv.cargoEdges.Keys + inv.wheelEdges.Keys + {root}
    ensures var known := Supplied(inv, table).Keys + {root};
            NoDangling(Total(inv, root, table, graph), known) <==> NoDangling(graph, known)
  {
    var known, total := Supplied(inv, table).Keys + {root}, Total(inv, root, table, graph);
    TotalAt(inv, root, table, graph);
    if NoDangling(graph, known) {
      forall ref | ref in total ensures ref in known && total[ref] <= known {
        if ref in graph {
          assert total[ref] == graph[ref];
        } else if ref != root && ref in inv.wheelEdges {
          assert inv.wheelEdges[ref] <= inv.python.Keys;
        } else if ref != root {
          assert inv.cargoEdges[ref] <= inv.cargo.Keys;
        }
      }
    }
    if NoDangling(total, known) {
      forall ref | ref in graph ensures ref in known && graph[ref] <= known { assert total[ref] == graph[ref]; }
    }
  }

  /** The joined graph, node by node. */
  lemma TotalAt(inv: Inventory, root: Ref, table: map<Ref, Component>, graph: Graph)
    requires graph.Keys !! inv.cargoEdges.Keys + inv.wheelEdges.Keys + {root}
    ensures var total := Total(inv, root, table, graph);
            && (forall ref :: ref in total <==> ref == root || ref in graph || ref in inv.cargoEdges || ref in inv.wheelEdges)
            && forall ref :: ref in total ==>
                 total[ref] == if ref == root then Supplied(inv, table).Keys
                               else if ref in inv.wheelEdges then inv.wheelEdges[ref]
                               else if ref in inv.cargoEdges then inv.cargoEdges[ref]
                               else graph[ref]
  {}

  lemma RenderableOn(inv: Inventory, artifact: Bom, table: map<Ref, Component>, graph: Graph)
    requires Readable(OrEmpty(artifact.components), OrEmpty(artifact.dependencies))
    requires Lists(OrEmpty(artifact.components), table) && Denotes(OrEmpty(artifact.dependencies), graph)
    ensures Renderable(inv, artifact) <==> HeaderOk(artifact.header) && Combinable(inv, RootRef(inv), table, graph)
  {
    hide Lists, Denotes, Combinable, HeaderOk;
    ReadableIsOk(OrEmpty(artifact.components), OrEmpty(artifact.dependencies));
    RenderableMeans(inv, artifact, table, graph);
  }

  /** `render` succeeds iff the lists of the artifact bill fit the inventories. */
  lemma RenderableExactly(inv: Inventory, artifact: Bom)
    requires InventoryOk(inv)
    ensures Renderable(inv, artifact) <==> Fits(inv, artifact)
  {
    var root, cs, ds := "plenora-release:" + inv.version, OrEmpty(artifact.components), OrEmpty(artifact.dependencies);
    ReadableIsOk(cs, ds);
    if Readable(cs, ds) {
      hide Lists, Denotes, ComponentsJoin, GraphsJoin, Readable, NewComponents, NewNodes, NoLooseEnd, Renderable, InventoryOk;
      var table := ListsHaveTable(cs);
      var graph := ListsHaveGraph(ds);
      RenderableOn(inv, artifact, table, graph);
      ComponentsJoinIs(inv, root, cs, table);
      if ComponentsJoin(inv, root, table) { GraphsJoinIs(inv, root, cs, ds, table, graph); }
    }
  }

  lemma GraphsJoinIs(inv: Inventory, root: Ref, cs: seq<Component>, ds: seq<Dependency>,
                     table: map<Ref, Component>, graph: Graph)
    requires InventoryOk(inv) && Lists(cs, table) && Denotes(ds, graph) && ComponentsJoin(inv, root, table)
    ensures GraphsJoin(inv, root, table, graph) <==> NewNodes(inv, root, ds) && NoLooseEnd(inv, root, cs, ds)
  {
    NewNodesIs(inv, root, ds, graph);
    if NewNodes(inv, root, ds) {
      TotalDangles(inv, root, table, graph);
      EndsAre(inv, root, cs, ds, table, graph);
    }
  }

  lemma NewNodesIs(inv: Inventory, root: Ref, ds: seq<Dependency>, graph: Graph)
    requires Denotes(ds, graph)
    ensures graph.Keys !! inv.cargoEdges.Keys + inv.wheelEdges.Keys + {root} <==> NewNodes(inv, root, ds)
  {
    GraphOf(ds, graph);
  }

  lemma EndsAre(inv: Inventory, root: Ref, cs: seq<Component>, ds: seq<Dependency>,
                table: map<Ref, Component>, graph: Graph)
    requires Lists(cs, table) && Denotes(ds, graph) && NewNodes(inv, root, ds)
    ensures NoDangling(graph, Supplied(inv, table).Keys + {root}) <==> NoLooseEnd(inv, root, cs, ds)
  {
    SuppliedIs(inv, cs, table);
    EndsWithin(ds, graph, Supplied(inv, table).Keys + {root});
    hide NoDangling, Supplied, Carries, Supplies, Denotes, Lists, IsNode, Edge;
  }

  /** The rendered lists: every list in ascending order, exactly the components
      of the artifact and of the inventories, exactly their nodes and edges, and
      the root above all components. */
  ghost predicate Combines(inv: Inventory, artifact: Bom, bom: Bom)
    requires bom.components.Some? && bom.dependencies.Some?
  {
    var root, cs, ds := "plenora-release:" + inv.version, OrEmpty(artifact.components), OrEmpty(artifact.dependencies);
    var all, nodes := bom.components.value, bom.dependencies.value;
    && (forall c :: c in all <==> c in cs || exists ref :: Inventoried(inv, ref, c))
    && (forall ref :: IsNode(nodes, ref) <==> ref == root || ref in inv.cargoEdges || ref in inv.wheelEdges || IsNode(ds, ref))
    && (forall ref, target :: Edge(nodes, ref, target) <==>
          || (ref == root && Carries(all, target)) || Edge(ds, ref, target)
          || (ref in inv.cargoEdges && target in inv.cargoEdges[ref])
          || (ref in inv.wheelEdges && target in inv.wheelEdges[ref]))
  }

  lemma CombinedComponents(inv: Inventory, cs: seq<Component>, table: map<Ref, Component>, all: seq<Component>)
    requires Lists(cs, table) && Lists(all, Supplied(inv, table))
    requires Keyed(inv.cargo) && Keyed(inv.python) && Keyed(inv.wheels)
    requires ComponentsJoin(inv, RootRef(inv), table)
    ensures forall c :: c in all <==> c in cs || exists ref :: Inventoried(inv, ref, c)
  {
    var total := Supplied(inv, table);
    forall c ensures c in all <==> c in cs || exists ref :: Inventoried(inv, ref, c) {
      if c in all {
        var i :| 0 <= i < |all| && all[i] == c;
        var ref := c.ref.value;
        assert total[ref] == c;
        if ref in table { assert table[ref] in cs; } else { assert Inventoried(inv, ref, c); }
      }
      if c in cs {
        var i :| 0 <= i < |cs| && cs[i] == c;
        assert total[c.ref.value] == c && total[c.ref.value] in all;
      }
      if exists ref :: Inventoried(inv, ref, c) {
        var ref :| Inventoried(inv, ref, c);
        assert total[ref] == c && total[ref] in all;
      }
    }
  }

  lemma CombinedGraph(inv: Inventory, ds: seq<Dependency>, all: seq<Component>, nodes: seq<Dependency>,
                      table: map<Ref, Component>, graph: Graph)
    requires Denotes(ds, graph) && Denotes(nodes, Total(inv, RootRef(inv), table, graph))
    requires Lists(all, Supplied(inv, table))
    requires inv.cargoEdges.Keys !! inv.wheelEdges.Keys && RootRef(inv) !in inv.cargoEdges && RootRef(inv) !in inv.wheelEdges
    requires graph.Keys !! inv.cargoEdges.Keys + inv.wheelEdges.Keys + {RootRef(inv)}
    ensures forall ref :: IsNode(nodes, ref) <==>
              ref == RootRef(inv) || ref in inv.cargoEdges || ref in inv.wheelEdges || IsNode(ds, ref)
    ensures forall ref, target :: Edge(nodes, ref, target) <==>
              || (ref == RootRef(inv) && Carries(all, target)) || Edge(ds, ref, target)
              || (ref in inv.cargoEdges && target in inv.cargoEdges[ref])
              || (ref in inv.wheelEdges && target in inv.wheelEdges[ref])
  {
    GraphOf(ds, graph);
    GraphOf(nodes, Total(inv, RootRef(inv), table, graph));
    TableOf(all, Supplied(inv, table));
    TotalAt(inv, RootRef(inv), table, graph);
  }

  /** Whatever `render` writes combines the artifact bill with the inventories, and loses nothing. */
  lemma RenderedExactly(inv: Inventory, artifact: Bom, table: map<Ref, Component>, graph: Graph, bom: Bom)
    requires InventoryOk(inv)
    requires Lists(OrEmpty(artifact.components), table) && Denotes(OrEmpty(artifact.dependencies), graph)
    requires IsRendering(inv, artifact.header, table, graph, bom)
    ensures bom.header == artifact.header && Identity(inv.version, bom.identity)
    ensures bom.components.Some? && bom.dependencies.Some? && Combines(inv, artifact, bom)
    ensures InOrder(bom.components.value, bom.dependencies.value)
  {
    RenderingReadsBack(inv, artifact.header, table, graph, bom);
    var cs, ds := bom.components.value, bom.dependencies.value;
    CombinedComponents(inv, OrEmpty(artifact.components), table, cs);
    assert inv.cargoEdges.Keys !! inv.wheelEdges.Keys;
    assert RootRef(inv) !in inv.cargo && RootRef(inv) !in inv.wheels;
    CombinedGraph(inv, OrEmpty(artifact.dependencies), cs, ds, table, graph);
    ComponentsInOrder(cs, Supplied(inv, table));
    NodesInOrder(ds, Total(inv, RootRef(inv), table, graph));
  }

  ghost predicate TargetsInOrder(d: Dependency)
  {
    exists values :: Ascending(values) && d.dependsOn == Values(Somes(values))
  }

  /** Components, nodes and the targets of every node are in ascending order. */
  ghost predicate InOrder(cs: seq<Component>, ds: seq<Dependency>)
  {
    && (exists refs :: Ascending(refs) && ComponentRefs(cs) == Somes(refs))
    && (exists refs :: Ascending(refs) && DependencyRefs(ds) == Somes(refs))
    && forall i :: 0 <= i < |ds| ==> TargetsInOrder(ds[i])
  }

  lemma ComponentsInOrder(cs: seq<Component>, table: map<Ref, Component>)
    requires WritesComponents(cs, table) && Lists(cs, table)
    ensures exists refs :: Ascending(refs) && ComponentRefs(cs) == Somes(refs)
  {
    var refs :| Ascending(refs) && (forall x :: x in refs <==> x in table) && |cs| == |refs|
                && forall i :: 0 <= i < |refs| ==> cs[i] == table[refs[i]];
    forall i | 0 <= i < |refs| ensures ComponentRefs(cs)[i] == Some(refs[i]) { assert refs[i] in refs; }
    assert ComponentRefs(cs) == Somes(refs);
  }

  lemma NodesInOrder(ds: seq<Dependency>, graph: Graph)
    requires WritesGraph(ds, graph)
    ensures exists refs :: Ascending(refs) && DependencyRefs(ds) == Somes(refs)
    ensures forall i :: 0 <= i < |ds| ==> TargetsInOrder(ds[i])
  {
    var nodes :| Ascending(nodes) && (forall x :: x in nodes <==> x in graph) && |ds| == |nodes|
                 && forall i :: 0 <= i < |nodes| ==> WritesNode(ds[i], nodes[i], graph[nodes[i]]);
    forall i | 0 <= i < |nodes| ensures ds[i].ref == Some(nodes[i]) && TargetsInOrder(ds[i]) {
      assert nodes[i] in nodes && WritesNode(ds[i], nodes[i], graph[nodes[i]]);
      hide Somes, Ascending;
    }
    assert DependencyRefs(ds) == Somes(nodes);
  }
}
