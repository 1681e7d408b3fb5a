/** `python_inventory` of scripts/render_release_sbom.py: the recursive visit of
    requirement files, with its `files` and `visiting` collections. */
module RequirementResolver {
  import opened RequirementIncludes

  class Resolver {
    const repo: Repository
    var files: map<Path, seq<string>>
    var visiting: set<Path>
    /** The files read, in order. */
    var read: seq<Path>
    ghost var order: seq<Path>

    ghost predicate Valid()
      reads this
    {
      StateOk(repo, files, visiting, order, read)
    }

    constructor (repo: Repository)
      ensures Valid() && this.repo == repo && files == map[] && visiting == {} && order == [] && read == []
    {
      this.repo := repo;
      files, visiting, order, read := map[], {}, [], [];
    }

    /** `visit`: `stack` holds the files being visited, outermost first. */
    method Visit(path: Path, ghost stack: seq<Path>) returns (r: Outcome)
      requires Valid()
      requires IsWalk(repo, stack + [path]) && visiting == Members(stack)
      modifies this
      ensures r.Done? ==> Valid() && visiting == old(visiting) && path in files
      ensures r.Done? ==> Grown(repo, path, old(order), order)
      ensures r.Raised? ==> Defect(repo, path, r.error) && Distinct(read)
      decreases |repo.Keys - visiting|, 1
    {
      if path !in repo {
        OwnDefect(repo, path, NotARepositoryFile);
        return Raised(NotARepositoryFile);
      }
      if path in visiting {
        CycleFound(repo, stack, path);
        OwnDefect(repo, path, CyclicInclude);
        return Raised(CyclicInclude);
      }
      if path in files {
        return Done;
      }
      r := VisitFile(path, stack);
    }

    /** The part of `visit` that reads a new file. */
    method VisitFile(path: Path, ghost stack: seq<Path>) returns (r: Outcome)
      requires Valid() && path in repo && path !in visiting && path !in files
      requires IsWalk(repo, stack + [path]) && visiting == Members(stack)
      modifies this
      ensures r.Done? ==> Valid() && visiting == old(visiting) && path in files
      ensures r.Done? ==> Grown(repo, path, old(order), order)
      ensures r.Raised? ==> Defect(repo, path, r.error) && Distinct(read)
      decreases |repo.Keys - visiting|, 0
    {
      Enter(path, stack);
      var lines;
      r, lines := VisitLines(path, stack + [path]);
      if r.Raised? { return; }
      Finish(path, lines);
    }

    method Enter(path: Path, ghost stack: seq<Path>)
      requires Valid() && path in repo && path !in visiting && path !in files && visiting == Members(stack)
      modifies this`visiting, this`read
      ensures Valid() && visiting == old(visiting) + {path} && read == old(read) + [path]
      ensures visiting == Members(stack + [path]) && visiting - {path} == old(visiting)
      ensures |repo.Keys - visiting| < |repo.Keys - old(visiting)|
    {
      EnterAndRead(repo, files, stack, order, read, path);
      visiting := visiting + {path};
      read := read + [path];
    }

    method Finish(path: Path, lines: seq<string>)
      requires Valid() && path in visiting && Covered(repo[path], order) && lines == Requirements(repo[path])
      modifies this`visiting, this`files, this`order
      ensures Valid() && visiting == old(visiting) - {path} && files == old(files)[path := lines]
      ensures order == old(order) + [path]
      ensures forall before :: Grown(repo, path, before, old(order)) ==> Grown(repo, path, before, order)
    {
      FinishFile(repo, files, visiting, order, read, path);
      visiting := visiting - {path};
      files := files[path := lines];
      order := order + [path];
      ReachSelf(repo, path);
    }

    /** The loop of `visit` over the lines of a file that is being visited. */
    method VisitLines(path: Path, ghost stack: seq<Path>) returns (r: Outcome, kept: seq<string>)
      requires Valid() && path in visiting
      requires IsWalk(repo, stack) && stack[|stack| - 1] == path && visiting == Members(stack)
      modifies this
      ensures r.Done? ==> Valid() && visiting == old(visiting)
      ensures r.Done? ==> Grown(repo, path, old(order), order)
      ensures r.Done? ==> Covered(repo[path], order) && kept == Requirements(repo[path])
      ensures r.Raised? ==> Defect(repo, path, r.error) && Distinct(read)
      decreases |repo.Keys - visiting|, 3
    {
      var lines := repo[path];
      kept := [];
      for k := 0 to |lines|
        invariant Valid() && visiting == old(visiting)
        invariant LinesRead(repo, path, k, old(order), order, kept)
      {
        var line := lines[k];
        ghost var before := order;
        r := VisitLine(path, line, stack);
        if r.Raised? { return; }
        LineRead(repo, path, k, old(order), before, order, kept);
        if line.Requirement? { kept := kept + [line.text]; }
      }
      AllLinesRead(repo, path, old(order), order, kept);
      return Done, kept;
    }

    /** One line: a malformed include raises, an include is visited. */
    method VisitLine(path: Path, line: Line, ghost stack: seq<Path>) returns (r: Outcome)
      requires Valid() && path in visiting && line in repo[path]
      requires IsWalk(repo, stack) && stack[|stack| - 1] == path && visiting == Members(stack)
      modifies this
      ensures r.Done? ==> Valid() && visiting == old(visiting)
      ensures r.Done? ==> Grown(repo, path, old(order), order) && Covered([line], order)
      ensures r.Raised? ==> Defect(repo, path, r.error) && Distinct(read)
      decreases |repo.Keys - visiting|, 2
    {
      match line {
        case Malformed =>
          OwnDefect(repo, path, MalformedInclude);
          return Raised(MalformedInclude);
        case Include(target) =>
          assert Edge(repo, path, target);
          WalkGrows(repo, stack, target);
          r := Visit(target, stack);
          if r.Raised? {
            DefectStep(repo, path, target, r.error);
          } else {
            GrownStep(repo, path, target, old(order), old(order), order);
          }
        case Requirement(text) =>
          return Done;
      }
    }
  }

  /** The resolution of all root requirement files. It succeeds exactly when
      nothing reachable from the roots is missing, malformed or on a cycle;
      then `files` is exactly the reachable set, each file with its own
      requirement lines. An error names a defect that is there. No file is ever
      read twice, and on success exactly the reachable ones were read. */
  method ResolveIncludes(repo: Repository, roots: seq<Path>)
    returns (r: Outcome, files: map<Path, seq<string>>, read: seq<Path>)
    ensures r.Done? <==> forall e :: !DefectFromRoots(repo, roots, e)
    ensures r.Raised? ==> DefectFromRoots(repo, roots, r.error)
    ensures r.Done? ==> forall p :: p in files <==> ReachFromRoots(repo, roots, p)
    ensures r.Done? ==> forall p :: p in files ==> p in repo && files[p] == Requirements(repo[p])
    ensures Distinct(read) && (r.Done? ==> forall p :: p in read <==> p in files)
  {
    var resolver := new Resolver(repo);
    files, read := map[], [];
    for k := 0 to |roots|
      invariant resolver.Valid() && resolver.repo == repo && resolver.visiting == {}
      invariant forall i :: 0 <= i < k ==> roots[i] in resolver.order
      invariant forall p :: p in resolver.order ==> ReachFromRoots(repo, roots, p)
    {
      ghost var before := resolver.order;
      r := resolver.Visit(roots[k], []);
      assert roots[k] in roots;
      if r.Raised? {
        assert DefectFromRoots(repo, roots, r.error);
        read := resolver.read;
        return;
      }
      forall p | p in resolver.order ensures ReachFromRoots(repo, roots, p) {
        if p !in before { assert roots[k] in roots && Reach(repo, roots[k], p); }
      }
    }
    files := resolver.files;
    forall e ensures !DefectFromRoots(repo, roots, e) {
      forall root, c | root in roots && Reach(repo, root, c) ensures !Culprit(repo, c, e) {
        FinishedIsSound(repo, resolver.order, root, c);
      }
    }
    forall p | ReachFromRoots(repo, roots, p) ensures p in files {
      var root :| root in roots && Reach(repo, root, p);
      FinishedIsSound(repo, resolver.order, root, p);
    }
    read := resolver.read;
    return Done, files, read;
  }
}
