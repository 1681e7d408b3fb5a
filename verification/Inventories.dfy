/** The loops of scripts/render_release_sbom.py that read the lock files, the
    requirement files and the wheels, and the release they describe. */
module Inventories {
  import opened Text
  import SortedText
  import RequirementIncludes
  import Versions
  import opened Sbom
  import opened InventorySpec

  datatype Failure =
    | AmbiguousDependency | BadInclude(error: RequirementIncludes.Error) | UnresolvedRequirement
    | NoWheel | AmbiguousMetadata | ForeignWheel | BadDeclaration(reason: Versions.Refusal)

  datatype Built<+T> = Built(value: T) | Failed(failure: Failure)

  // ----- cargo_inventory -----

  /** The targets of one package. */
  method LinkPackage(lock: Lock, dependencies: seq<seq<string>>) returns (r: Built<set<Ref>>)
    ensures r.Built? <==> Unambiguous(lock, dependencies)
    ensures r.Built? ==> r.value == Meant(lock, dependencies)
  {
    var targets: set<Ref> := {};
    for k := 0 to |dependencies|
      invariant Unambiguous(lock, dependencies[..k]) && targets == Meant(lock, dependencies[..k])
    {
      var words := dependencies[k];
      PrefixSnoc(dependencies, k);
      assert words in dependencies;
      var matches := Candidates(lock, words);
      if |matches| != 1 { return Failed(AmbiguousDependency); }
      var key :| key in matches;
      Versions.OnlyElement(matches, key);
      targets := targets + {KeyRef(key)};
    }
    WholePrefix(dependencies);
    return Built(targets);
  }

  /** The first loop over a lock: a component and an edge set for every package. */
  method AddPackages(lock: Lock, components: map<Ref, Component>, edges: Graph)
    returns (all: map<Ref, Component>, nodes: Graph)
    requires Keyed(components) && edges.Keys == components.Keys
    ensures Adding(lock, components, edges, all, nodes)
  {
    all, nodes := components, edges;
    for j := 0 to |lock|
      invariant Adding(lock[..j], components, edges, all, nodes)
    {
      PrefixSnoc(lock, j);
      var ref := RefOf(lock[j]);
      var more := Noted(all, ref, lock[j].details);
      AddingStep(lock[..j], lock[j], ref, components, edges, all, nodes, more);
      all := more;
      if ref !in nodes { nodes := nodes[ref := {}]; }
    }
    WholePrefix(lock);
  }

  /** The second loop over a lock: `edges` gains the targets of every package. */
  method LinkLock(lock: Lock, edges: Graph) returns (r: Built<Graph>)
    requires LockRefs(lock) <= edges.Keys
    ensures r.Built? <==> LockOk(lock, lock)
    ensures r.Built? ==> Linking(lock, lock, edges, r.value)
  {
    var linked := edges;
    LinkingStarts(lock, edges);
    for j := 0 to |lock|
      invariant Linking(lock, lock[..j], edges, linked)
    {
      PrefixSnoc(lock, j);
      var p, ref := lock[j], RefOf(lock[j]);
      assert p in lock && ref in LockRefs(lock);
      var targets := LinkPackage(lock, p.dependencies);
      if targets.Failed? { return Failed(targets.failure); }
      GainedByUpdate(linked, ref, targets.value);
      var more := linked[ref := linked[ref] + targets.value];
      LinkingStep(lock, lock[..j], p, edges, linked, more);
      linked := more;
    }
    WholePrefix(lock);
    return Built(linked);
  }

  /** `cargo_inventory`: fails exactly on an ambiguous dependency. */
  method CargoInventory(locks: seq<Lock>) returns (r: Built<(map<Ref, Component>, Graph)>)
    ensures r.Built? <==> CargoOk(locks)
    ensures r.Built? ==> IsCargo(locks, r.value.0, r.value.1)
  {
    var components: map<Ref, Component>, edges: Graph := map[], map[];
    for i := 0 to |locks|
      invariant CargoOk(locks[..i]) && IsCargo(locks[..i], components, edges)
    {
      PrefixSnoc(locks, i);
      CargoSnoc(locks[..i], locks[i]);
      var all, nodes := AddPackages(locks[i], components, edges);
      var linked := LinkLock(locks[i], nodes);
      if linked.Failed? {
        assert locks[i] in locks;
        return Failed(linked.failure);
      }
      CargoGrows(locks[..i], locks[i], components, edges, all, nodes, linked.value);
      components, edges := all, linked.value;
    }
    WholePrefix(locks);
    return Built((components, edges));
  }

  // ----- python_inventory -----

  method AddLines(components: map<Ref, Component>, file: string, lines: seq<string>, quote: string -> string)
    returns (r: Built<map<Ref, Component>>)
    requires Keyed(components)
    ensures r.Built? <==> AllPinned(lines)
    ensures r.Built? ==> Pinning(lines, quote, components, r.value)
  {
    var all := components;
    PinningStarts(quote, components);
    for k := 0 to |lines|
      invariant Pinning(lines[..k], quote, components, all)
    {
      PrefixSnoc(lines, k);
      assert lines[k] in lines;
      if PinOf(lines[k]) == None { return Failed(UnresolvedRequirement); }
      PinningStep(lines[..k], lines[k], quote, components, all, file + ": " + lines[k]);
      all := Noted(all, PinRef(lines[k], quote), file + ": " + lines[k]);
    }
    WholePrefix(lines);
    return Built(all);
  }

  /** The components of the resolved requirement files: exactly their pins. */
  method PinnedComponents(files: map<string, seq<string>>, quote: string -> string)
    returns (r: Built<map<Ref, Component>>, ghost paths: seq<string>)
    ensures forall f :: f in paths <==> f in files
    ensures r.Built? <==> forall f :: f in files ==> AllPinned(files[f])
    ensures r.Built? ==> IsPython(files, paths, quote, r.value)
  {
    var ordered := SortedText.Sorted(files.Keys);
    paths := ordered;
    var components: map<Ref, Component> := map[];
    for i := 0 to |ordered|
      invariant IsPython(files, ordered[..i], quote, components)
    {
      PrefixSnoc(ordered, i);
      var f := ordered[i];
      assert f in ordered;
      var added := AddLines(components, f, files[f], quote);
      if added.Failed? { r := Failed(added.failure); return; }
      PythonGrows(files, ordered[..i], f, quote, components, added.value);
      components := added.value;
    }
    WholePrefix(ordered);
    r := Built(components);
  }

  // ----- wheel_inventory -----

  method ResolveOne(d: string, python: set<Ref>) returns (r: Built<Ref>)
    ensures r.Built? ==> OnlyPin(d, python, r.value)
    ensures r.Failed? ==> NoPin(d, python)
  {
    var resolved := Versions.ResolveRequirement(d, python);
    if resolved.Refused? { return Failed(BadDeclaration(resolved.reason)); }
    return Built(resolved.ref);
  }

  /** Every declared requirement resolved to its pin. */
  method ResolveAll(declared: seq<string>, python: set<Ref>) returns (r: Built<set<Ref>>)
    ensures r.Built? <==> Declarable(declared, python)
    ensures r.Built? ==> Resolving(declared, python, r.value)
  {
    var refs: set<Ref> := {};
    hide Versions.Accepts, NoPin, OnlyPin;
    for k := 0 to |declared|
      invariant Resolving(declared[..k], python, refs)
    {
      PrefixSnoc(declared, k);
      var resolved := ResolveOne(declared[k], python);
      if resolved.Failed? {
        NotDeclarable(declared, declared[k], python);
        return Failed(resolved.failure);
      }
      ResolvingStep(declared[..k], declared[k], python, refs, resolved.value);
      refs := refs + {resolved.value};
    }
    WholePrefix(declared);
    return Built(refs);
  }

  /** `wheel_inventory`: each wheel identified, each declaration met by its only pin. */
  method WheelInventory(dist: map<string, Wheel>, version: string, python: set<Ref>)
    returns (r: Built<(map<Ref, Component>, Graph)>)
    ensures r.Built? <==> dist != map[] && forall f :: f in dist ==> WheelOk(dist[f], version, python)
    ensures r.Built? ==> IsWheels(dist, dist.Keys, version, python, r.value.0, r.value.1)
  {
    if dist == map[] { return Failed(NoWheel); }
    var files := SortedText.Sorted(dist.Keys);
    var components: map<Ref, Component>, edges: Graph := map[], map[];
    ghost var done: set<string> := {};
    for i := 0 to |files|
      invariant forall f :: f in done <==> f in files[..i]
      invariant IsWheels(dist, done, version, python, components, edges)
    {
      assert files[i] in files;
      PrefixSnoc(files, i);
      var added := AddWheel(dist, done, version, python, components, edges, files[i]);
      if added.Failed? { return Failed(added.failure); }
      components, edges := added.value.0, added.value.1;
      done := done + {files[i]};
    }
    WholePrefix(files);
    assert done == dist.Keys;
    return Built((components, edges));
  }

  /** One turn of `wheel_inventory`. */
  method AddWheel(dist: map<string, Wheel>, ghost done: set<string>, version: string, python: set<Ref>,
                  components: map<Ref, Component>, edges: Graph, f: string)
    returns (r: Built<(map<Ref, Component>, Graph)>)
    requires f in dist && f !in done && IsWheels(dist, done, version, python, components, edges)
    ensures r.Built? <==> WheelOk(dist[f], version, python)
    ensures r.Built? ==> IsWheels(dist, done + {f}, version, python, r.value.0, r.value.1)
  {
    var resolved := InspectWheel(dist[f], version, python);
    if resolved.Failed? { return Failed(resolved.failure); }
    WheelAdded(dist, done, version, python, components, edges, f, resolved.value);
    var noted := components[WheelRef(f) := Record(WheelRef(f), dist[f].digest)];
    return Built((noted, if resolved.value == {} then edges else edges[WheelRef(f) := resolved.value]));
  }

  /** One wheel of `wheel_inventory`: its metadata, its identity, its declarations. */
  method InspectWheel(w: Wheel, version: string, python: set<Ref>) returns (r: Built<set<Ref>>)
    ensures r.Built? <==> WheelOk(w, version, python)
    ensures r.Built? ==> Identified(w, version) && Resolving(w.declared, python, r.value)
  {
    if w.metadata != 1 { return Failed(AmbiguousMetadata); }
    if !Identified(w, version) { return Failed(ForeignWheel); }
    r := ResolveAll(w.declared, python);
  }
}
