/** Generator and checker of the bill of materials agree: what `render` returns,
    `validate` accepts. */
module SbomTheorems {
  import opened Text
  import opened SortedText
  import opened Sbom

  /** Records that carry distinct non-empty references, in order. */
  lemma AscendingRefsOk(found: seq<Option<Ref>>, refs: seq<Ref>)
    requires Ascending(refs) && "" !in refs && |found| == |refs|
    requires forall i :: 0 <= i < |refs| ==> found[i] == Some(refs[i])
    ensures RefsOk(found)
  {
    forall i | 0 <= i < |found| ensures found[i].Some? && found[i].value != "" { assert refs[i] in refs; }
  }

  lemma WrittenComponentsRead(items: seq<Component>, table: map<Ref, Component>)
    requires WritesComponents(items, table) && Keyed(table)
    ensures RefsOk(ComponentRefs(items)) && Lists(items, table)
  {
    var refs :| Ascending(refs) && (forall x :: x in refs <==> x in table) && |items| == |refs|
                && forall i :: 0 <= i < |refs| ==> items[i] == table[refs[i]];
    ListedBy(items, table, refs);
  }

  lemma ListedBy(items: seq<Component>, table: map<Ref, Component>, refs: seq<Ref>)
    requires Keyed(table) && Ascending(refs) && (forall x :: x in refs <==> x in table) && |items| == |refs|
    requires forall i :: 0 <= i < |refs| ==> refs[i] in table && items[i] == table[refs[i]]
    ensures RefsOk(ComponentRefs(items)) && Lists(items, table)
  {
    forall i | 0 <= i < |refs| ensures items[i].ref == Some(refs[i]) {
      assert refs[i] in refs;
    }
    AscendingRefsOk(ComponentRefs(items), refs);
    EveryComponentListed(items, table, refs);
  }

  lemma EveryComponentListed(items: seq<Component>, table: map<Ref, Component>, refs: seq<Ref>)
    requires (forall x :: x in refs <==> x in table) && |items| == |refs|
    requires forall i :: 0 <= i < |refs| ==> refs[i] in table && items[i] == table[refs[i]]
    ensures forall r :: r in table ==> table[r] in items
  {
    forall r | r in table ensures table[r] in items {
      var i :| 0 <= i < |refs| && refs[i] == r;
      assert items[i] == table[r];
    }
  }

  lemma WrittenNodeReads(item: Dependency, ref: Ref, targets: set<Ref>)
    requires WritesNode(item, ref, targets) && "" !in targets
    ensures item.ref == Some(ref) && EdgesOk(item.dependsOn) && Targets(item.dependsOn) == targets
  {
    var values :| Ascending(values) && (forall x :: x in values <==> x in targets)
                  && item == Dependency(Some(ref), Values(Somes(values)));
    forall i | 0 <= i < |values| ensures values[i] in targets { assert values[i] in values; }
    var somes := Somes(values);
    forall x | x in targets ensures x in Targets(item.dependsOn) {
      var i :| 0 <= i < |values| && values[i] == x;
      assert somes[i] == Some(x);
      assert Some(x) in somes;
    }
  }

  lemma WrittenGraphReads(items: seq<Dependency>, graph: Graph)
    requires WritesGraph(items, graph)
    requires forall r :: r in graph ==> r != "" && "" !in graph[r]
    ensures DependenciesOk(items) && Denotes(items, graph)
  {
    var refs :| Ascending(refs) && (forall x :: x in refs <==> x in graph) && |items| == |refs|
                && forall i :: 0 <= i < |refs| ==> WritesNode(items[i], refs[i], graph[refs[i]]);
    forall i | 0 <= i < |refs|
      ensures refs[i] in graph && items[i].ref == Some(refs[i]) && EdgesOk(items[i].dependsOn)
      ensures Targets(items[i].dependsOn) == graph[refs[i]]
    {
      assert refs[i] in refs;
      WrittenNodeReads(items[i], refs[i], graph[refs[i]]);
    }
    NodesRead(items, refs, graph);
  }

  lemma NodesRead(items: seq<Dependency>, refs: seq<Ref>, graph: Graph)
    requires Ascending(refs) && "" !in refs && (forall x :: x in refs <==> x in graph) && |items| == |refs|
    requires forall i :: 0 <= i < |refs| ==>
      refs[i] in graph && items[i].ref == Some(refs[i]) && EdgesOk(items[i].dependsOn)
      && Targets(items[i].dependsOn) == graph[refs[i]]
    ensures DependenciesOk(items) && Denotes(items, graph)
  {
    AscendingRefsOk(DependencyRefs(items), refs);
    forall r | r in graph ensures exists i :: 0 <= i < |items| && items[i].ref == Some(r) {
      var i :| 0 <= i < |refs| && refs[i] == r;
      assert items[i].ref == Some(r);
    }
  }

  lemma SuppliedIsKeyed(inv: Inventory, table: map<Ref, Component>)
    requires InventoryOk(inv) && Keyed(table)
    ensures Keyed(Supplied(inv, table))
  {}

  lemma SuppliedCovers(inv: Inventory, root: Ref, table: map<Ref, Component>, graph: Graph)
    requires Combinable(inv, root, table, graph)
    ensures Covers(inv, Supplied(inv, table))
    ensures forall r :: r in table ==> r in Supplied(inv, table) && Supplied(inv, table)[r] == table[r]
  {}

  lemma JoinAgrees(a: Graph, b: Graph, c: Graph, root: Ref, all: set<Ref>)
    requires a.Keys !! b.Keys + c.Keys && b.Keys !! c.Keys && root !in a.Keys + b.Keys + c.Keys
    ensures var total := (a + b + c)[root := all];
            Agrees(a, total) && Agrees(b, total) && Agrees(c, total)
  {}

  lemma TotalAgrees(inv: Inventory, root: Ref, table: map<Ref, Component>, graph: Graph)
    requires InventoryOk(inv) && Combinable(inv, root, table, graph)
    ensures var total := Total(inv, root, table, graph);
            && Agrees(graph, total) && Agrees(inv.cargoEdges, total) && Agrees(inv.wheelEdges, total)
            && root in total && total[root] == Supplied(inv, table).Keys
  {
    assert inv.cargoEdges.Keys !! inv.wheelEdges.Keys;
    assert root !in inv.cargo && root !in inv.wheels;
    JoinAgrees(graph, inv.cargoEdges, inv.wheelEdges, root, Supplied(inv, table).Keys);
  }

  lemma RootIsNamed(inv: Inventory)
    ensures RootRef(inv) != ""
  {
    assert RootRef(inv)[0] == 'p';
  }

  /** What is written for a combined bill reads back as the combined tables. */
  lemma RenderingReadsBack(inv: Inventory, header: Header, table: map<Ref, Component>, graph: Graph, bom: Bom)
    requires InventoryOk(inv) && Keyed(table) && IsRendering(inv, header, table, graph, bom)
    ensures RefsOk(ComponentRefs(bom.components.value)) && DependenciesOk(bom.dependencies.value)
    ensures Lists(bom.components.value, Supplied(inv, table))
    ensures Denotes(bom.dependencies.value, Total(inv, RootRef(inv), table, graph))
  {
    RootIsNamed(inv);
    SuppliedIsKeyed(inv, table);
    WrittenComponentsRead(bom.components.value, Supplied(inv, table));
    KnownIsNamed(Supplied(inv, table), RootRef(inv), Total(inv, RootRef(inv), table, graph));
    WrittenGraphReads(bom.dependencies.value, Total(inv, RootRef(inv), table, graph));
  }

  lemma KnownIsNamed(table: map<Ref, Component>, root: Ref, graph: Graph)
    requires Keyed(table) && root != "" && NoDangling(graph, table.Keys + {root})
    ensures forall r :: r in graph ==> r != "" && "" !in graph[r]
  {
    assert "" !in table.Keys + {root};
  }

  /** Whatever `render` returns, `validate` accepts on the same inventories. */
  lemma RenderedIsAccepted(inv: Inventory, header: Header, table: map<Ref, Component>, graph: Graph, bom: Bom)
    requires InventoryOk(inv) && Keyed(table) && IsRendering(inv, header, table, graph, bom)
    ensures Accepted(inv, bom)
  {
    var root := RootRef(inv);
    RenderingReadsBack(inv, header, table, graph, bom);
    SuppliedCovers(inv, root, table, graph);
    TotalAgrees(inv, root, table, graph);
    assert Faithful(inv, root, Supplied(inv, table), Total(inv, root, table, graph));
  }

  /** `render` then `validate`, end to end. */
  method RenderThenValidate(inv: Inventory, artifact: Bom) returns (r: Result<Bom>, verdict: Option<Error>)
    requires InventoryOk(inv)
    ensures r.Ok? <==> Renderable(inv, artifact)
    ensures r.Ok? ==> verdict == None && Accepted(inv, r.value)
  {
    ghost var table, graph;
    r, table, graph := Render(inv, artifact);
    verdict := None;
    if r.Ok? {
      RenderedIsAccepted(inv, artifact.header, table, graph, r.value);
      verdict := Validate(inv, r.value);
    }
  }

  /** Rendering loses nothing of the artifact bill: its components and edges are still there. */
  lemma RenderKeepsArtifact(inv: Inventory, header: Header, table: map<Ref, Component>, graph: Graph, bom: Bom)
    requires InventoryOk(inv) && Keyed(table) && IsRendering(inv, header, table, graph, bom)
    ensures forall r :: r in table ==> table[r] in bom.components.value
    ensures forall g :: Denotes(bom.dependencies.value, g) ==> Agrees(graph, g)
  {
    var root := RootRef(inv);
    RenderingReadsBack(inv, header, table, graph, bom);
    SuppliedCovers(inv, root, table, graph);
    TotalAgrees(inv, root, table, graph);
    forall g | Denotes(bom.dependencies.value, g) ensures Agrees(graph, g) {
      DenotesIsUnique(bom.dependencies.value, g, Total(inv, root, table, graph));
    }
  }

  /** A rendered bill is never accepted as an artifact bill again. */
  lemma NoSecondRendering(inv: Inventory, header: Header, table: map<Ref, Component>, graph: Graph, bom: Bom)
    requires InventoryOk(inv) && Keyed(table) && IsRendering(inv, header, table, graph, bom)
    ensures !Renderable(inv, bom)
  {
    RenderingReadsBack(inv, header, table, graph, bom);
    var w :| w in inv.wheels;
    forall t, g | Lists(bom.components.value, t) ensures !Combinable(inv, RootRef(inv), t, g) {
      ListsIsUnique(bom.components.value, t, Supplied(inv, table));
      assert w in t;
    }
  }
}
