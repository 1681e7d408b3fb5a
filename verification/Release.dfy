/** A release end to end: from lock files, requirement files and wheels to a
    bill of materials that `validate` accepts, and back from any accepted bill
    to what those files say. */
module Release {
  import opened Text
  import RequirementIncludes
  import RequirementResolver
  import Versions
  import opened Sbom
  import opened SbomTheorems
  import opened InventorySpec
  import opened Inventories

  /** Everything `render` and `validate` read besides the bill itself. */
  datatype Sources = Sources(version: string, locks: seq<Lock>,
                             repo: RequirementIncludes.Repository, roots: seq<string>, quote: string -> string,
                             dist: map<string, Wheel>)

  ghost predicate Reached(src: Sources, path: string)
  {
    path in src.repo && RequirementIncludes.ReachFromRoots(src.repo, src.roots, path)
  }

  /** No include reachable from the roots is defective, and every reachable requirement is a pin. */
  ghost predicate Resolvable(src: Sources)
  {
    && (forall e :: !RequirementIncludes.DefectFromRoots(src.repo, src.roots, e))
    && (forall path :: Reached(src, path) ==> AllPinned(RequirementIncludes.Requirements(src.repo[path])))
  }

  /** `ref` pins a requirement of a file reachable from the roots. */
  ghost predicate PinnedBy(src: Sources, ref: Ref)
  {
    exists path :: Reached(src, path) && ref in Pinned(RequirementIncludes.Requirements(src.repo[path]), src.quote)
  }

  ghost predicate IsInventory(src: Sources, inv: Inventory)
  {
    && inv.version == src.version
    && CargoOk(src.locks) && IsCargo(src.locks, inv.cargo, inv.cargoEdges)
    && Resolvable(src) && Keyed(inv.python) && (forall ref :: ref in inv.python <==> PinnedBy(src, ref))
    && src.dist != map[]
    && IsWheels(src.dist, src.dist.Keys, src.version, inv.python.Keys, inv.wheels, inv.wheelEdges)
  }

  /** `python_inventory`: exactly the pins of the reachable requirement files. */
  method PythonInventory(src: Sources) returns (r: Built<map<Ref, Component>>)
    ensures r.Built? <==> Resolvable(src)
    ensures r.Built? ==> Keyed(r.value) && forall ref :: ref in r.value <==> PinnedBy(src, ref)
  {
    var outcome, files, _ := RequirementResolver.ResolveIncludes(src.repo, src.roots);
    if outcome.Raised? { return Failed(BadInclude(outcome.error)); }
    assert forall path :: path in files <==> Reached(src, path);
    ghost var paths;
    r, paths := PinnedComponents(files, src.quote);
    if r.Built? { PinsOfFiles(src, files, paths, r.value); }
  }

  lemma PinsOfFiles(src: Sources, files: map<string, seq<string>>, paths: seq<string>, components: map<Ref, Component>)
    requires forall path :: path in files <==> Reached(src, path)
    requires forall path :: path in files ==> path in src.repo && files[path] == RequirementIncludes.Requirements(src.repo[path])
    requires (forall path :: path in paths <==> path in files) && IsPython(files, paths, src.quote, components)
    ensures forall ref :: ref in components <==> PinnedBy(src, ref)
  {
    forall ref ensures ref in components <==> PinnedBy(src, ref) {
      if PinnedBy(src, ref) {
        var path :| Reached(src, path) && ref in Pinned(RequirementIncludes.Requirements(src.repo[path]), src.quote);
        assert path in paths && ref in Pinned(files[path], src.quote);
      }
    }
  }

  /** The three inventories; there is none exactly when the source raises. */
  method ReleaseInventory(src: Sources) returns (r: Built<Inventory>)
    ensures r.Built? ==> IsInventory(src, r.value)
    ensures r.Failed? ==> forall inv :: !IsInventory(src, inv)
  {
    var cargo := CargoInventory(src.locks);
    if cargo.Failed? { return Failed(cargo.failure); }
    var python := PythonInventory(src);
    if python.Failed? { return Failed(python.failure); }
    var wheels := WheelInventory(src.dist, src.version, python.value.Keys);
    if wheels.Failed? {
      NoOtherWheels(src, python.value.Keys);
      return Failed(wheels.failure);
    }
    return Built(Inventory(src.version, cargo.value.0, cargo.value.1, python.value, wheels.value.0, wheels.value.1));
  }

  /** The pins are determined by the files, so wheels refused once are refused always. */
  lemma NoOtherWheels(src: Sources, pins: set<Ref>)
    requires forall ref :: ref in pins <==> PinnedBy(src, ref)
    requires src.dist == map[] || exists f :: f in src.dist && !WheelOk(src.dist[f], src.version, pins)
    ensures forall inv :: !IsInventory(src, inv)
  {
    forall inv ensures !IsInventory(src, inv) {
      if IsInventory(src, inv) {
        SamePins(src, inv, pins);
      }
    }
  }

  lemma SamePins(src: Sources, inv: Inventory, pins: set<Ref>)
    requires (forall ref :: ref in pins <==> PinnedBy(src, ref)) && IsInventory(src, inv)
    ensures inv.python.Keys == pins
  {}

  /** What the inventories guarantee by construction. */
  lemma InventoryIsOk(src: Sources, inv: Inventory)
    requires IsInventory(src, inv)
    ensures InventoryOk(inv)
  {
    forall r | r in inv.cargoEdges ensures inv.cargoEdges[r] <= inv.cargo.Keys {
      CargoTargetsKnown(src.locks, r);
    }
    var f :| f in src.dist;
    assert WheelRef(f) in inv.wheels;
    WheelEdgesOk(src.dist, src.version, inv.python.Keys, inv.wheels, inv.wheelEdges);
  }

  lemma WheelEdgesOk(dist: map<string, Wheel>, version: string, pins: set<Ref>, wheels: map<Ref, Component>, edges: Graph)
    requires IsWheels(dist, dist.Keys, version, pins, wheels, edges)
    ensures edges.Keys <= wheels.Keys && forall r :: r in edges ==> edges[r] <= pins
  {
    forall r | r in edges ensures r in wheels && edges[r] <= pins {
      var f :| f in dist && dist[f].declared != [] && r == WheelRef(f);
    }
  }

  // ----- from an accepted bill back to the files -----

  /** Every package depends on exactly what the locks say. */
  ghost predicate FollowsLocks(src: Sources, graph: Graph)
  {
    forall ref :: ref in CargoRefs(src.locks) ==> ref in graph && graph[ref] == CargoTargets(src.locks, ref)
  }

  /** Every declaration of every wheel is met by an edge to the only pin it maps
      onto, and a declaring wheel has no other edge. */
  ghost predicate FollowsWheels(src: Sources, pins: set<Ref>, graph: Graph)
  {
    forall f :: f in src.dist && src.dist[f].declared != [] ==>
      && WheelRef(f) in graph
      && (forall d :: d in src.dist[f].declared ==> MetBy(d, pins, graph[WheelRef(f)]))
      && forall ref :: ref in graph[WheelRef(f)] ==>
           exists d :: d in src.dist[f].declared && Versions.Accepts(d, pins, ref)
  }

  ghost predicate MetBy(d: string, pins: set<Ref>, targets: set<Ref>)
  {
    exists ref :: ref in targets && Versions.Accepts(d, pins, ref)
  }

  /** The edges of any bill `validate` accepts are those of the lock files and of the wheels. */
  lemma AcceptedIsTraceable(src: Sources, inv: Inventory, bom: Bom, graph: Graph)
    requires IsInventory(src, inv) && Accepted(inv, bom) && Denotes(bom.dependencies.value, graph)
    ensures FollowsLocks(src, graph) && FollowsWheels(src, inv.python.Keys, graph)
  {
    var t, g :| Lists(bom.components.value, t) && Denotes(bom.dependencies.value, g) && Faithful(inv, RootRef(inv), t, g);
    DenotesIsUnique(bom.dependencies.value, g, graph);
    forall f | f in src.dist && src.dist[f].declared != []
      ensures WheelRef(f) in graph && graph[WheelRef(f)] == Runtime(src.dist[f].declared, inv.python.Keys)
    {
      assert WheelRef(f) in inv.wheelEdges;
    }
    EveryDeclarationMet(src, inv.python.Keys, graph);
  }

  lemma EveryDeclarationMet(src: Sources, pins: set<Ref>, graph: Graph)
    requires forall f :: f in src.dist ==> WheelOk(src.dist[f], src.version, pins)
    requires forall f :: f in src.dist && src.dist[f].declared != [] ==>
      WheelRef(f) in graph && graph[WheelRef(f)] == Runtime(src.dist[f].declared, pins)
    ensures FollowsWheels(src, pins, graph)
  {
    forall f, d | f in src.dist && d in src.dist[f].declared ensures WheelRef(f) in graph && MetBy(d, pins, graph[WheelRef(f)]) {
      assert WheelOk(src.dist[f], src.version, pins);
      var ref :| Versions.Accepts(d, pins, ref);
      AcceptedPin(d, pins, ref);
      assert ref in graph[WheelRef(f)];
    }
  }

  /** `render`, then `validate` on the same files: whatever is rendered is
      accepted. Nothing is rendered exactly when the files give no inventory or
      the artifact bill does not combine with it. */
  method Publish(src: Sources, artifact: Bom) returns (bom: Option<Bom>, verdict: Option<Error>, inv: Option<Inventory>)
    ensures inv.Some? ==> IsInventory(src, inv.value)
    ensures inv == None ==> forall i :: !IsInventory(src, i)
    ensures bom.Some? <==> inv.Some? && Renderable(inv.value, artifact)
    ensures bom.Some? ==> verdict == None && Accepted(inv.value, bom.value)
  {
    bom, verdict, inv := None, None, None;
    var built := ReleaseInventory(src);
    if built.Failed? { return; }
    inv := Some(built.value);
    InventoryIsOk(src, built.value);
    var r;
    r, verdict := RenderThenValidate(built.value, artifact);
    if r.Ok? { bom := Some(r.value); }
  }
}
