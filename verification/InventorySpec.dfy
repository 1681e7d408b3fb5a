/** What the inventories of scripts/render_release_sbom.py hold: the union of the
    lock graphs, the pins of the requirement files, and the wheels with the pins
    their declarations map onto. */
module InventorySpec {
  import opened Text
  import Versions
  import opened Sbom

  /** A record with its reference; `text` stands for its other members. */
  function Record(ref: Ref, text: string): Component
  {
    Component(Some(ref), map["properties" := text])
  }

  /** `components.setdefault(ref, ...)`, then one more property. */
  function Noted(components: map<Ref, Component>, ref: Ref, text: string): (r: map<Ref, Component>)
    requires Keyed(components) && ref != ""
    ensures Keyed(r) && r.Keys == components.Keys + {ref}
  {
    if ref in components && "properties" in components[ref].members
    then components[ref := Record(ref, components[ref].members["properties"] + text)]
    else components[ref := Record(ref, text)]
  }

  // ----- cargo_inventory -----

  /** A lock entry; a dependency is its words: name, then version, then source. */
  datatype Package = Package(name: string, version: string, source: Option<string>,
                             dependencies: seq<seq<string>>, details: string)
  datatype Key = Key(name: string, version: string, source: string)
  type Lock = seq<Package>

  function KeyOf(p: Package): Key
  {
    Key(p.name, p.version, if p.source.Some? then p.source.value else "local")
  }

  function RefOf(p: Package): (r: Ref)
    ensures r != ""
  {
    KeyRef(KeyOf(p))
  }

  function KeyRef(k: Key): (r: Ref)
    ensures r != ""
  {
    "cargo:" + k.name + "@" + k.version + ":" + k.source
  }

  /** `text.strip("()")`. */
  function Unparenthesized(text: string): string
    decreases |text|
  {
    if text != "" && text[0] in "()" then Unparenthesized(text[1..])
    else if text != "" && text[|text| - 1] in "()" then Unparenthesized(text[..|text| - 1])
    else text
  }

  predicate Matches(k: Key, words: seq<string>)
  {
    && words != [] && k.name == words[0]
    && (|words| == 1 || k.version == words[1])
    && (|words| < 3 || k.source == Unparenthesized(words[2]))
  }

  /** The packages of the same lock a dependency may mean. */
  function Candidates(lock: Lock, words: seq<string>): set<Key>
  {
    set p | p in lock && Matches(KeyOf(p), words) :: KeyOf(p)
  }

  function LockRefs(lock: Lock): set<Ref>
  {
    set p | p in lock :: RefOf(p)
  }

  function Meant(lock: Lock, dependencies: seq<seq<string>>): set<Ref>
  {
    set words, k | words in dependencies && k in Candidates(lock, words) :: KeyRef(k)
  }

  /** Every dependency names exactly one package of its lock. */
  predicate Unambiguous(lock: Lock, dependencies: seq<seq<string>>)
  {
    forall words :: words in dependencies ==> |Candidates(lock, words)| == 1
  }

  predicate LockOk(lock: Lock, some: seq<Package>)
  {
    forall p :: p in some ==> Unambiguous(lock, p.dependencies)
  }

  predicate CargoOk(locks: seq<Lock>)
  {
    forall lock :: lock in locks ==> LockOk(lock, lock)
  }

  /** What the packages of `some` that carry `ref` depend on. */
  function Sent(lock: Lock, some: seq<Package>, ref: Ref): set<Ref>
  {
    set p, t | p in some && RefOf(p) == ref && t in Meant(lock, p.dependencies) :: t
  }

  /** The union of the lock graphs. */
  function CargoTargets(locks: seq<Lock>, ref: Ref): set<Ref>
  {
    set lock, t | lock in locks && t in Sent(lock, lock, ref) :: t
  }

  function CargoRefs(locks: seq<Lock>): set<Ref>
  {
    set lock, r | lock in locks && r in LockRefs(lock) :: r
  }

  /** The lock inventory: one component per package reference, and the union of the lock graphs. */
  ghost predicate IsCargo(locks: seq<Lock>, components: map<Ref, Component>, edges: Graph)
  {
    && Keyed(components) && components.Keys == edges.Keys == CargoRefs(locks)
    && forall ref :: ref in edges ==> edges[ref] == CargoTargets(locks, ref)
  }

  /** After the first packages of a lock, in the loop that adds components. */
  ghost predicate Adding(some: seq<Package>, components: map<Ref, Component>, edges: Graph,
                         all: map<Ref, Component>, nodes: Graph)
  {
    && Keyed(all) && all.Keys == nodes.Keys == components.Keys + LockRefs(some)
    && forall ref :: ref in nodes ==> nodes[ref] == if ref in edges then edges[ref] else {}
  }

  lemma AddingStep(some: seq<Package>, p: Package, ref: Ref, components: map<Ref, Component>, edges: Graph,
                   all: map<Ref, Component>, nodes: Graph, more: map<Ref, Component>)
    requires Adding(some, components, edges, all, nodes) && components.Keys == edges.Keys && ref == RefOf(p)
    requires Keyed(more) && more.Keys == all.Keys + {ref}
    ensures Adding(some + [p], components, edges, more, if ref in nodes then nodes else nodes[ref := {}])
  {
    LockRefsSnoc(some, p);
    NodeAdded(edges, all.Keys, nodes, ref);
  }

  lemma LockRefsSnoc(some: seq<Package>, p: Package)
    ensures LockRefs(some + [p]) == LockRefs(some) + {RefOf(p)}
  {
    assert forall q :: q in some + [p] <==> q in some || q == p;
  }

  lemma NodeAdded(edges: Graph, known: set<Ref>, nodes: Graph, ref: Ref)
    requires nodes.Keys == known && edges.Keys <= known
    requires forall r :: r in nodes ==> nodes[r] == if r in edges then edges[r] else {}
    ensures var after := if ref in nodes then nodes else nodes[ref := {}];
            after.Keys == known + {ref} && forall r :: r in after ==> after[r] == if r in edges then edges[r] else {}
  {}

  /** After the first packages of a lock, in the loop that adds edges. */
  ghost predicate Linking(lock: Lock, some: seq<Package>, edges: Graph, linked: Graph)
  {
    && linked.Keys == edges.Keys && LockOk(lock, some)
    && forall ref :: ref in edges ==> linked[ref] == edges[ref] + Sent(lock, some, ref)
  }

  lemma SentSnoc(lock: Lock, some: seq<Package>, p: Package, ref: Ref)
    ensures Sent(lock, some + [p], ref)
         == Sent(lock, some, ref) + (if RefOf(p) == ref then Meant(lock, p.dependencies) else {})
  {
    assert forall q :: q in some + [p] <==> q in some || q == p;
  }

  lemma LinkingStarts(lock: Lock, edges: Graph)
    ensures Linking(lock, [], edges, edges)
  {
    assert forall ref :: Sent(lock, [], ref) == {};
  }

  lemma LockOkSnoc(lock: Lock, some: seq<Package>, p: Package)
    requires LockOk(lock, some) && Unambiguous(lock, p.dependencies)
    ensures LockOk(lock, some + [p])
  {}

  /** `edges[ref]` gains `targets`, and nothing else changes. */
  ghost predicate Gained(before: Graph, ref: Ref, targets: set<Ref>, after: Graph)
  {
    && after.Keys == before.Keys
    && forall r :: r in before ==> after[r] == before[r] + if r == ref then targets else {}
  }

  lemma GainedByUpdate(before: Graph, ref: Ref, targets: set<Ref>)
    requires ref in before
    ensures Gained(before, ref, targets, before[ref := before[ref] + targets])
  {}

  lemma LinkingStep(lock: Lock, some: seq<Package>, p: Package, edges: Graph, linked: Graph, after: Graph)
    requires Linking(lock, some, edges, linked) && Unambiguous(lock, p.dependencies)
    requires Gained(linked, RefOf(p), Meant(lock, p.dependencies), after)
    ensures Linking(lock, some + [p], edges, after)
  {
    LockOkSnoc(lock, some, p);
    forall r | r in edges ensures after[r] == edges[r] + Sent(lock, some + [p], r) {
      SentSnoc(lock, some, p, r);
      UnionAssoc(edges[r], Sent(lock, some, r), if r == RefOf(p) then Meant(lock, p.dependencies) else {});
    }
  }

  lemma UnionAssoc(a: set<Ref>, b: set<Ref>, c: set<Ref>)
    ensures a + (b + c) == a + b + c && a + {} == a
  {}

  lemma CargoSnoc(locks: seq<Lock>, lock: Lock)
    ensures CargoRefs(locks + [lock]) == CargoRefs(locks) + LockRefs(lock)
    ensures forall ref :: CargoTargets(locks + [lock], ref) == CargoTargets(locks, ref) + Sent(lock, lock, ref)
    ensures CargoOk(locks + [lock]) <==> CargoOk(locks) && LockOk(lock, lock)
  {
    var all := locks + [lock];
    assert forall l :: l in all <==> l in locks || l == lock;
    forall ref ensures CargoTargets(all, ref) == CargoTargets(locks, ref) + Sent(lock, lock, ref) {}
  }

  /** Nothing outside the locks sends or receives. */
  lemma CargoTargetsKnown(locks: seq<Lock>, ref: Ref)
    ensures CargoTargets(locks, ref) <= CargoRefs(locks)
    ensures ref !in CargoRefs(locks) ==> CargoTargets(locks, ref) == {}
  {
    forall t | t in CargoTargets(locks, ref) ensures t in CargoRefs(locks) && ref in CargoRefs(locks) {
      var lock :| lock in locks && t in Sent(lock, lock, ref);
      var p :| p in lock && RefOf(p) == ref && t in Meant(lock, p.dependencies);
      assert ref in LockRefs(lock);
      var words, k :| words in p.dependencies && k in Candidates(lock, words) && t == KeyRef(k);
      var q :| q in lock && KeyOf(q) == k;
      assert t == RefOf(q) && t in LockRefs(lock);
    }
  }

  lemma CargoGrows(locks: seq<Lock>, lock: Lock, components: map<Ref, Component>, edges: Graph,
                   all: map<Ref, Component>, nodes: Graph, linked: Graph)
    requires IsCargo(locks, components, edges) && Adding(lock, components, edges, all, nodes)
    requires Linking(lock, lock, nodes, linked)
    ensures IsCargo(locks + [lock], all, linked)
  {
    CargoSnoc(locks, lock);
    forall ref | ref in linked ensures linked[ref] == CargoTargets(locks + [lock], ref) {
      CargoTargetsKnown(locks, ref);
    }
  }

  // ----- python_inventory, after the includes are resolved -----

  /** Leading characters that are neither `;` nor space. */
  function PinLen(t: string): (n: nat)
    ensures n <= |t|
  {
    if t != "" && t[0] != ';' && !IsSpace(t[0]) then 1 + PinLen(t[1..]) else 0
  }

  /** What follows an optional `[extras]`. */
  function AfterExtras(t: string): Option<string>
  {
    if t == "" || t[0] != '[' then Some(t) else
    match Find(t, "]") case None => None case Some(k) => if k < 2 then None else Some(t[k + 1..])
  }

  /** Name and version of a line `name[extras]==version ; marker`. */
  function PinOf(line: string): Option<(string, string)>
  {
    var n := Versions.NameLen(line);
    if n == 0 then None else
    match AfterExtras(line[n..])
    case None => None
    case Some(t) =>
      if !StartsPair(t, '=', '=') || PinLen(t[2..]) == 0 then None else
      var v := PinLen(t[2..]);
      var tail := LStrip(t[2 + v..]);
      if t[2 + v..] == "" || (tail != "" && tail[0] == ';')
      then Some((Versions.Normalize(line[..n]), t[2..2 + v])) else None
  }

  /** The reference of a pinned line; `quote` is the percent-encoding. */
  function PinRef(line: string, quote: string -> string): (r: Ref)
    requires PinOf(line).Some?
    ensures r != ""
  {
    Versions.Prefix(PinOf(line).value.0) + quote(PinOf(line).value.1)
  }

  predicate AllPinned(lines: seq<string>)
  {
    forall line :: line in lines ==> PinOf(line).Some?
  }

  function Pinned(lines: seq<string>, quote: string -> string): set<Ref>
  {
    set line | line in lines && PinOf(line).Some? :: PinRef(line, quote)
  }

  /** After the first lines of a file. */
  ghost predicate Pinning(lines: seq<string>, quote: string -> string, components: map<Ref, Component>, all: map<Ref, Component>)
  {
    AllPinned(lines) && Keyed(all) && all.Keys == components.Keys + Pinned(lines, quote)
  }

  lemma PinningStarts(quote: string -> string, components: map<Ref, Component>)
    requires Keyed(components)
    ensures Pinning([], quote, components, components)
  {}

  lemma PinningStep(lines: seq<string>, line: string, quote: string -> string, components: map<Ref, Component>,
                    all: map<Ref, Component>, text: string)
    requires Pinning(lines, quote, components, all) && PinOf(line).Some?
    ensures Pinning(lines + [line], quote, components, Noted(all, PinRef(line, quote), text))
  {
    PinnedSnoc(lines, line, quote);
    assert AllPinned(lines + [line]);
  }

  lemma PinnedSnoc(lines: seq<string>, line: string, quote: string -> string)
    requires PinOf(line).Some?
    ensures Pinned(lines + [line], quote) == Pinned(lines, quote) + {PinRef(line, quote)}
  {
    forall x ensures x in lines + [line] <==> x in lines || x == line {}
  }

  /** Exactly the pins of the files `some`. */
  ghost predicate IsPython(files: map<string, seq<string>>, some: seq<string>, quote: string -> string,
                           components: map<Ref, Component>)
  {
    && (forall f :: f in some ==> f in files && AllPinned(files[f]))
    && Keyed(components)
    && components.Keys == set f, ref | f in some && f in files && ref in Pinned(files[f], quote) :: ref
  }

  lemma PythonGrows(files: map<string, seq<string>>, some: seq<string>, f: string, quote: string -> string,
                    components: map<Ref, Component>, all: map<Ref, Component>)
    requires IsPython(files, some, quote, components) && f in files && Pinning(files[f], quote, components, all)
    ensures IsPython(files, some + [f], quote, all)
  {}

  // ----- wheel_inventory -----

  /** A wheel file: how many METADATA files it holds, and what the one says. */
  datatype Wheel = Wheel(metadata: nat, name: string, version: string, declared: seq<string>, digest: string)

  function WheelRef(file: string): Ref
  {
    "wheel:" + file
  }

  predicate Identified(w: Wheel, version: string)
  {
    w.metadata == 1 && w.version == version && w.name == "plenora-database"
  }

  /** The pins that the declarations map onto. */
  ghost function Runtime(declared: seq<string>, python: set<Ref>): set<Ref>
  {
    set ref | ref in python && exists d :: d in declared && Versions.Accepts(d, python, ref)
  }

  ghost predicate Declarable(declared: seq<string>, python: set<Ref>)
  {
    forall d :: d in declared ==> exists ref :: Versions.Accepts(d, python, ref)
  }

  ghost predicate Resolving(declared: seq<string>, python: set<Ref>, refs: set<Ref>)
  {
    Declarable(declared, python) && refs == Runtime(declared, python) && (refs == {} <==> declared == [])
  }

  /** `ref` is what the declaration maps onto, and nothing else is. */
  ghost predicate OnlyPin(d: string, python: set<Ref>, ref: Ref)
  {
    forall x :: x == ref <==> Versions.Accepts(d, python, x)
  }

  ghost predicate NoPin(d: string, python: set<Ref>)
  {
    forall x :: !Versions.Accepts(d, python, x)
  }

  lemma NotDeclarable(declared: seq<string>, d: string, python: set<Ref>)
    requires d in declared && NoPin(d, python)
    ensures !Declarable(declared, python)
  {}

  lemma ResolvingStep(declared: seq<string>, d: string, python: set<Ref>, refs: set<Ref>, ref: Ref)
    requires Resolving(declared, python, refs)
    requires OnlyPin(d, python, ref)
    ensures Resolving(declared + [d], python, refs + {ref})
  {
    AcceptedPin(d, python, ref);
    assert forall e :: e in declared + [d] <==> e in declared || e == d;
    assert d in declared + [d];
  }

  lemma AcceptedPin(d: string, python: set<Ref>, ref: Ref)
    requires Versions.Accepts(d, python, ref)
    ensures ref in python
  {
    assert ref in Versions.Pins(python, Versions.ParseRequirement(d).value.0);
  }

  ghost predicate WheelOk(w: Wheel, version: string, python: set<Ref>)
  {
    Identified(w, version) && Declarable(w.declared, python)
  }

  /** One component per wheel of `some`, with its runtime pins as edges where it declares any. */
  ghost predicate IsWheels(dist: map<string, Wheel>, some: set<string>, version: string, python: set<Ref>,
                           components: map<Ref, Component>, edges: Graph)
  {
    && some <= dist.Keys && (forall f :: f in some ==> WheelOk(dist[f], version, python))
    && Keyed(components) && components.Keys == (set f | f in some :: WheelRef(f))
    && edges.Keys == (set f | f in some && dist[f].declared != [] :: WheelRef(f))
    && (forall f :: f in some && WheelRef(f) in edges ==> edges[WheelRef(f)] == Runtime(dist[f].declared, python))
  }

  lemma WheelRefIsInjective(f: string, g: string)
    requires WheelRef(f) == WheelRef(g)
    ensures f == g
  {
    assert WheelRef(f)[6..] == f && WheelRef(g)[6..] == g;
  }

  lemma WheelAdded(dist: map<string, Wheel>, some: set<string>, version: string, python: set<Ref>,
                   components: map<Ref, Component>, edges: Graph, f: string, refs: set<Ref>)
    requires IsWheels(dist, some, version, python, components, edges)
    requires f in dist && f !in some && Identified(dist[f], version) && Resolving(dist[f].declared, python, refs)
    ensures IsWheels(dist, some + {f}, version, python, components[WheelRef(f) := Record(WheelRef(f), dist[f].digest)],
                     if refs == {} then edges else edges[WheelRef(f) := refs])
  {
    assert WheelRef(f)[0] == 'w';
    forall g | g in some ensures WheelRef(g) != WheelRef(f) {
      if WheelRef(g) == WheelRef(f) { WheelRefIsInjective(g, f); }
    }
  }
}
