/** Include resolution of `python_inventory` in scripts/render_release_sbom.py:
    a depth-first visit with a `visiting` set, over an arbitrary finite
    repository of requirement files. */
module RequirementIncludes {
  import opened Text

  type Path = string

  /** A requirement line after its comment is cut: an include whose argument is
      not one relative path, an include of a (resolved) path, or a requirement. */
  datatype Line = Malformed | Include(path: Path) | Requirement(text: string)

  /** The existing files of the repository, blank lines dropped. */
  type Repository = map<Path, seq<Line>>

  datatype Error = NotARepositoryFile | CyclicInclude | MalformedInclude
  datatype Outcome = Done | Raised(error: Error)

  function Requirements(lines: seq<Line>): seq<string>
  {
    if lines == [] then []
    else (if lines[0].Requirement? then [lines[0].text] else []) + Requirements(lines[1..])
  }

  lemma {:induction false} RequirementsSnoc(lines: seq<Line>, line: Line)
    ensures Requirements(lines + [line])
         == Requirements(lines) + (if line.Requirement? then [line.text] else [])
  {
    if lines == [] {
      assert lines + [line] == [line];
      assert [line][1..] == [];
    } else {
      assert (lines + [line])[1..] == lines[1..] + [line] && (lines + [line])[0] == lines[0];
      RequirementsSnoc(lines[1..], line);
      Assoc(if lines[0].Requirement? then [lines[0].text] else [], Requirements(lines[1..]),
            if line.Requirement? then [line.text] else []);
    }
  }

  // ----- the include graph -----

  ghost predicate Edge(repo: Repository, a: Path, b: Path)
  {
    a in repo && Include(b) in repo[a]
  }

  ghost predicate IsWalk(repo: Repository, w: seq<Path>)
  {
    w != [] && forall i :: 0 <= i < |w| - 1 ==> Edge(repo, w[i], w[i + 1])
  }

  ghost predicate WalkTo(repo: Repository, a: Path, w: seq<Path>, b: Path)
  {
    IsWalk(repo, w) && w[0] == a && w[|w| - 1] == b
  }

  ghost predicate Reach(repo: Repository, a: Path, b: Path)
  {
    exists w :: WalkTo(repo, a, w, b)
  }

  ghost function Members(w: seq<Path>): set<Path>
  {
    set p | p in w
  }

  /** A closed walk through at least one include. */
  ghost predicate OnCycle(repo: Repository, c: Path)
  {
    exists w :: |w| >= 2 && WalkTo(repo, c, w, c)
  }

  /** Something reachable from `a` that makes resolution fail with `error`. */
  ghost predicate Culprit(repo: Repository, c: Path, error: Error)
  {
    match error
    case NotARepositoryFile => c !in repo
    case CyclicInclude => OnCycle(repo, c)
    case MalformedInclude => c in repo && Malformed in repo[c]
  }

  ghost predicate Defect(repo: Repository, a: Path, error: Error)
  {
    exists c :: Reach(repo, a, c) && Culprit(repo, c, error)
  }

  lemma ReachSelf(repo: Repository, a: Path)
    ensures Reach(repo, a, a)
  {
    assert WalkTo(repo, a, [a], a);
  }

  lemma OwnDefect(repo: Repository, a: Path, error: Error)
    requires Culprit(repo, a, error)
    ensures Defect(repo, a, error)
  {
    ReachSelf(repo, a);
  }

  lemma ReachStep(repo: Repository, a: Path, b: Path, c: Path)
    requires Edge(repo, a, b) && Reach(repo, b, c)
    ensures Reach(repo, a, c)
  {
    var w :| WalkTo(repo, b, w, c);
    var v := [a] + w;
    assert forall i :: 1 <= i < |v| ==> v[i] == w[i - 1];
    assert WalkTo(repo, a, v, c);
  }

  lemma DefectStep(repo: Repository, a: Path, b: Path, error: Error)
    requires Edge(repo, a, b) && Defect(repo, b, error)
    ensures Defect(repo, a, error)
  {
    var c :| Reach(repo, b, c) && Culprit(repo, c, error);
    ReachStep(repo, a, b, c);
  }

  // ----- finished files -----

  /** Files in the order they were finished: each without malformed includes,
      and all its includes finished before it. */
  ghost predicate Finished(repo: Repository, order: seq<Path>)
  {
    && (forall i, j :: 0 <= i < j < |order| ==> order[i] != order[j])
    && (forall i :: 0 <= i < |order| ==> order[i] in repo && Malformed !in repo[order[i]])
    && (forall i, b :: 0 <= i < |order| && Edge(repo, order[i], b) ==> b in order[..i])
  }

  /** Includes of finished files lead strictly back in the finishing order. */
  lemma {:induction false} WalkDescends(repo: Repository, order: seq<Path>, w: seq<Path>, i: nat) returns (j: nat)
    requires Finished(repo, order) && i < |order|
    requires IsWalk(repo, w) && w[0] == order[i]
    ensures j <= i && order[j] == w[|w| - 1]
    ensures |w| >= 2 ==> j < i
    decreases |w|
  {
    if |w| == 1 {
      j := i;
    } else {
      assert Edge(repo, w[0], w[1]);
      var k :| 0 <= k < i && order[k] == w[1];
      assert forall m :: 0 <= m < |w[1..]| ==> w[1..][m] == w[m + 1];
      j := WalkDescends(repo, order, w[1..], k);
    }
  }

  /** Nothing reachable from a finished file is defective, and all of it is finished. */
  lemma FinishedIsSound(repo: Repository, order: seq<Path>, a: Path, c: Path)
    requires Finished(repo, order) && a in order && Reach(repo, a, c)
    ensures c in order
    ensures forall e :: !Culprit(repo, c, e)
  {
    var i :| 0 <= i < |order| && order[i] == a;
    var w :| WalkTo(repo, a, w, c);
    var j := WalkDescends(repo, order, w, i);
    if OnCycle(repo, c) {
      var v :| |v| >= 2 && WalkTo(repo, c, v, c);
      var k := WalkDescends(repo, order, v, j);
    }
    forall e ensures !Culprit(repo, c, e) {}
  }

  lemma FinishOne(repo: Repository, order: seq<Path>, path: Path)
    requires Finished(repo, order) && path !in order && path in repo
    requires Covered(repo[path], order)
    ensures Finished(repo, order + [path])
  {
    var all := order + [path];
    forall i, b | 0 <= i < |all| && Edge(repo, all[i], b) ensures b in all[..i] {
      if i < |order| {
        assert all[..i] == order[..i];
      } else {
        assert all[..i] == order;
      }
    }
  }

  /** The resolver's state: finished files with their own requirement lines,
      disjoint from the files being visited. */
  ghost predicate Consistent(repo: Repository, files: map<Path, seq<string>>, visiting: set<Path>, order: seq<Path>)
  {
    && Finished(repo, order)
    && (forall p :: p in files <==> p in order)
    && (forall p :: p in files ==> p in repo && files[p] == Requirements(repo[p]))
    && visiting <= repo.Keys && visiting !! files.Keys
  }

  lemma FileFinished(repo: Repository, files: map<Path, seq<string>>, visiting: set<Path>, order: seq<Path>, path: Path)
    requires Consistent(repo, files, visiting, order) && path in visiting && Covered(repo[path], order)
    ensures Consistent(repo, files[path := Requirements(repo[path])], visiting - {path}, order + [path])
    ensures path in files[path := Requirements(repo[path])]
  {
    FinishOne(repo, order, path);
  }

  // ----- what a visit adds -----

  /** The finished files grew, by files reachable from `path`. */
  ghost predicate Grown(repo: Repository, path: Path, before: seq<Path>, after: seq<Path>)
  {
    before <= after && forall p :: p in after && p !in before ==> Reach(repo, path, p)
  }

  lemma GrownStep(repo: Repository, path: Path, target: Path, first: seq<Path>, before: seq<Path>, after: seq<Path>)
    requires Grown(repo, path, first, before) && Edge(repo, path, target) && Grown(repo, target, before, after)
    ensures Grown(repo, path, first, after)
  {
    forall p | p in after && p !in first ensures Reach(repo, path, p) {
      if p !in before { ReachStep(repo, path, target, p); }
    }
  }

  lemma GrownMore(repo: Repository, path: Path, first: seq<Path>, before: seq<Path>, after: seq<Path>)
    requires Grown(repo, path, first, before) && Grown(repo, path, before, after)
    ensures Grown(repo, path, first, after)
  {}

  lemma CoveredSnoc(lines: seq<Line>, line: Line, before: seq<Path>, after: seq<Path>)
    requires Covered(lines, before) && before <= after && Covered([line], after)
    ensures Covered(lines + [line], after)
  {
    assert [line][0] == line;
  }

  /** Every include among `lines` is well formed and finished. */
  ghost predicate Covered(lines: seq<Line>, order: seq<Path>)
  {
    forall i :: 0 <= i < |lines| ==> !lines[i].Malformed? && (lines[i].Include? ==> lines[i].path in order)
  }

  /** After the first `k` lines of `path`: the finished files grew from `first`,
      the includes among the lines are finished, the requirements are kept. */
  ghost predicate LinesRead(repo: Repository, path: Path, k: nat, first: seq<Path>, order: seq<Path>, kept: seq<string>)
    requires path in repo
  {
    && k <= |repo[path]| && Grown(repo, path, first, order)
    && Covered(repo[path][..k], order) && kept == Requirements(repo[path][..k])
  }

  lemma LineRead(repo: Repository, path: Path, k: nat, first: seq<Path>, before: seq<Path>, after: seq<Path>, kept: seq<string>)
    requires path in repo && k < |repo[path]| && LinesRead(repo, path, k, first, before, kept)
    requires Grown(repo, path, before, after) && Covered([repo[path][k]], after)
    ensures var line := repo[path][k];
            LinesRead(repo, path, k + 1, first, after, if line.Requirement? then kept + [line.text] else kept)
  {
    var lines, line := repo[path], repo[path][k];
    GrownMore(repo, path, first, before, after);
    assert lines[..k + 1] == lines[..k] + [line];
    CoveredSnoc(lines[..k], line, before, after);
    RequirementsSnoc(lines[..k], line);
  }

  lemma AllLinesRead(repo: Repository, path: Path, first: seq<Path>, order: seq<Path>, kept: seq<string>)
    requires path in repo && LinesRead(repo, path, |repo[path]|, first, order, kept)
    ensures Grown(repo, path, first, order) && Covered(repo[path], order) && kept == Requirements(repo[path])
  {
    assert repo[path][..|repo[path]|] == repo[path];
  }

  /** Entering a file that is neither finished nor being visited. */
  lemma FileEntered(repo: Repository, files: map<Path, seq<string>>, stack: seq<Path>, order: seq<Path>, path: Path)
    requires Consistent(repo, files, Members(stack), order) && path in repo && path !in files && path !in stack
    ensures Consistent(repo, files, Members(stack) + {path}, order)
    ensures Members(stack + [path]) == Members(stack) + {path} && Members(stack) + {path} - {path} == Members(stack)
    ensures |repo.Keys - (Members(stack) + {path})| < |repo.Keys - Members(stack)|
  {
    assert repo.Keys - Members(stack) == (repo.Keys - (Members(stack) + {path})) + {path};
  }

  lemma WalkGrows(repo: Repository, w: seq<Path>, b: Path)
    requires IsWalk(repo, w) && Edge(repo, w[|w| - 1], b)
    ensures IsWalk(repo, w + [b])
  {}

  /** A file met again while being visited closes a cycle. */
  lemma CycleFound(repo: Repository, stack: seq<Path>, path: Path)
    requires IsWalk(repo, stack + [path]) && path in stack
    ensures OnCycle(repo, path)
  {
    var j :| 0 <= j < |stack| && stack[j] == path;
    var all := stack + [path];
    var w := all[j..];
    assert forall i :: 0 <= i < |w| ==> w[i] == all[j + i];
    assert WalkTo(repo, path, w, path);
  }

  ghost predicate ReachFromRoots(repo: Repository, roots: seq<Path>, p: Path)
  {
    exists r :: r in roots && Reach(repo, r, p)
  }

  ghost predicate DefectFromRoots(repo: Repository, roots: seq<Path>, e: Error)
  {
    exists r :: r in roots && Defect(repo, r, e)
  }

  // ----- every file is read once -----

  ghost predicate Distinct(read: seq<Path>)
  {
    forall i, j :: 0 <= i < j < |read| ==> read[i] != read[j]
  }

  /** The files read so far: the finished ones and those being visited, each once. */
  ghost predicate ReadOnce(files: map<Path, seq<string>>, visiting: set<Path>, read: seq<Path>)
  {
    Distinct(read) && forall p :: p in read <==> p in files || p in visiting
  }

  /** The whole state of the resolver. */
  ghost predicate StateOk(repo: Repository, files: map<Path, seq<string>>, visiting: set<Path>, order: seq<Path>, read: seq<Path>)
  {
    Consistent(repo, files, visiting, order) && ReadOnce(files, visiting, read)
  }

  lemma ReadOneMore(read: seq<Path>, path: Path)
    requires Distinct(read) && path !in read
    ensures Distinct(read + [path]) && forall p :: p in read + [path] <==> p in read || p == path
  {}

  /** A file is read when it is entered, and only then. */
  lemma EnterAndRead(repo: Repository, files: map<Path, seq<string>>, stack: seq<Path>, order: seq<Path>, read: seq<Path>, path: Path)
    requires StateOk(repo, files, Members(stack), order, read) && path in repo && path !in files && path !in stack
    ensures StateOk(repo, files, Members(stack) + {path}, order, read + [path])
    ensures Members(stack + [path]) == Members(stack) + {path} && Members(stack) + {path} - {path} == Members(stack)
    ensures |repo.Keys - (Members(stack) + {path})| < |repo.Keys - Members(stack)|
  {
    FileEntered(repo, files, stack, order, path);
    ReadOneMore(read, path);
  }

  lemma FinishFile(repo: Repository, files: map<Path, seq<string>>, visiting: set<Path>, order: seq<Path>, read: seq<Path>, path: Path)
    requires StateOk(repo, files, visiting, order, read) && path in visiting && Covered(repo[path], order)
    ensures StateOk(repo, files[path := Requirements(repo[path])], visiting - {path}, order + [path], read)
    ensures path in files[path := Requirements(repo[path])]
  {
    FileFinished(repo, files, visiting, order, path);
  }
}
