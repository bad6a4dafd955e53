/** git.go: cloneFiles. The remote repositories are values (a reference
    table and the commit objects of the store, each with its tree files);
    the disk writes of a manifest are four steps any of which may fail,
    as a fault oracle says; the callback is a function from (path, hash)
    to an optional error, and the walk reports which calls it made. */
module Git {
  import opened Wrappers
  import opened GoStrings

  /** The all-zero hash that a symbolic reference reports as its hash. */
  const ZeroHash := "0000000000000000000000000000000000000000"

  datatype TreeFile = TreeFile(name: string, mode: int)

  datatype Commit = Commit(hash: string, files: seq<TreeFile>)

  datatype Ref = HashRef(target: string) | SymbolicRef(name: string)
  {
    function Hash(): string {
      if HashRef? then target else ZeroHash
    }
  }

  /** A cloned repository: reference table and commits in iterator order. */
  datatype Repo = Repo(refs: map<string, Ref>, commits: seq<Commit>)

  /** The steps that write one manifest to disk, in the order they happen. */
  datatype IoStep = Create | Read | Chmod | Copy

  /** One invocation of the file callback. */
  datatype Call = Call(path: string, hash: string)

  /** A file written to disk: its name in the tree and the mode given to it. */
  datatype Written = Written(name: string, mode: int)

  /** The outcome of a file walk: the error that stopped it, if any, the
      files written and the callback invocations made. */
  datatype Walked = Walked(err: Option<string>, written: seq<Written>, calls: seq<Call>)

  /** The outcome of cloneFiles: the commit hash or the error, with the
      effects made before it returned. */
  datatype Fetched = Fetched(result: Result<string>, written: seq<Written>, calls: seq<Call>)

  /** What a walk over one commit's files is parameterised by. */
  datatype Walker = Walker(
    kubeFolder: string,
    repoPath: string,
    hash: string,
    io: (string, IoStep) -> Option<string>,
    cb: (string, string) -> Option<string>)

  /** The last "/"-separated segment of the URI without a trailing ".git". */
  function RepoName(uri: string): string {
    TrimSuffix(LastPiece(uri, '/'), ".git")
  }

  /** The clone name holds no '/' and is the URI's last segment, less a
      trailing ".git". */
  lemma RepoNameSpec(uri: string)
    ensures var n := RepoName(uri);
      Free(n, '/') && (LastPiece(uri, '/') == n || LastPiece(uri, '/') == n + ".git")
  {
    var last := LastPiece(uri, '/');
    LastPieceEnd(uri, '/');
    var n := RepoName(uri);
    if HasSuffix(last, ".git") {
      assert n + ".git" == last;
      forall k | 0 <= k < |n| ensures n[k] != '/' {
        assert (n + ".git")[k] == n[k];
      }
    }
  }

  /** The working directory of a clone. */
  function RepoPath(baseDir: string, uri: string): string {
    baseDir + RepoName(uri)
  }

  /** The clone lives directly under the base directory. */
  lemma RepoPathSpec(baseDir: string, uri: string)
    ensures var p := RepoPath(baseDir, uri);
      HasPrefix(p, baseDir) && p[|baseDir|..] == RepoName(uri) && Free(p[|baseDir|..], '/')
  {
    RepoNameSpec(uri);
    var p := RepoPath(baseDir, uri);
    assert p[..|baseDir|] == baseDir;
  }

  /** A URI ending in "/<name>" or "/<name>.git" names its clone <name>. */
  lemma RepoNameOfSegment(host: string, name: string)
    requires Free(name, '/')
    ensures RepoName(host + "/" + name) == TrimSuffix(name, ".git")
    ensures RepoName(host + "/" + name + ".git") == name
  {
    var a := host + "/" + name;
    assert a[|a| - |name| - 1] == '/' && a[|a| - |name|..] == name;
    LastPieceUnique(a, '/', name);
    var b := a + ".git";
    var nb := name + ".git";
    assert b == host + "/" + nb;
    assert Free(nb, '/') by {
      forall k | 0 <= k < |nb| ensures nb[k] != '/' {
        if k < |name| { assert nb[k] == name[k]; }
      }
    }
    assert b[|b| - |nb| - 1] == '/' && b[|b| - |nb|..] == nb;
    LastPieceUnique(b, '/', nb);
    assert nb[..|name|] == name;
  }

  /** The position of the first commit with the given hash. */
  function FirstWithHash(commits: seq<Commit>, hash: string): (r: Option<nat>)
    ensures r.Some? ==> r.value < |commits| && commits[r.value].hash == hash
  {
    if commits == [] then None
    else if commits[0].hash == hash then Some(0)
    else match FirstWithHash(commits[1..], hash)
      case None => None
      case Some(i) => Some(i + 1)
  }

  /** FirstWithHash finds a commit exactly when one has the hash, and then
      the first one. */
  lemma {:induction false} FirstWithHashSpec(commits: seq<Commit>, hash: string)
    ensures var r := FirstWithHash(commits, hash);
      && (r.None? <==> forall i :: 0 <= i < |commits| ==> commits[i].hash != hash)
      && (r.Some? ==> forall i :: 0 <= i < r.value ==> commits[i].hash != hash)
  {
    if commits != [] && commits[0].hash != hash {
      FirstWithHashSpec(commits[1..], hash);
      assert forall i :: 0 < i < |commits| ==> commits[i] == commits[1..][i - 1];
    }
  }

  /** The history scan of git.go: the callback keeps the commit whose hash
      matches and closes the iterator, which ends the scan. */
  method ScanCommits(commits: seq<Commit>, hash: string) returns (found: Option<Commit>)
    ensures found.None? <==> FirstWithHash(commits, hash).None?
    ensures found.Some? ==> found.value == commits[FirstWithHash(commits, hash).value]
  {
    FirstWithHashSpec(commits, hash);
    found := None;
    var i := 0;
    while i < |commits| && found.None?
      invariant 0 <= i <= |commits|
      invariant found.None? ==> forall j :: 0 <= j < i ==> commits[j].hash != hash
      invariant found.Some? ==> 0 < i && found.value == commits[i - 1] && commits[i - 1].hash == hash
      invariant found.Some? ==> forall j :: 0 <= j < i - 1 ==> commits[j].hash != hash
    {
      if commits[i].hash == hash {
        found := Some(commits[i]);
      }
      i := i + 1;
    }
  }

  /** The commit a ref name designates: a name under "refs/" is looked up
      in the reference table and its hash in the object store; anything
      else is taken for a commit hash. */
  function ResolveCommit(repo: Repo, refName: string): Result<Commit> {
    if HasPrefix(refName, "refs/") then
      if refName !in repo.refs then Err("reference not found")
      else match FirstWithHash(repo.commits, repo.refs[refName].Hash())
        case None => Err("object not found")
        case Some(i) => Ok(repo.commits[i])
    else match FirstWithHash(repo.commits, refName)
      case None => Err("Could not find commit")
      case Some(i) => Ok(repo.commits[i])
  }

  /** A resolved commit is one of the repository's; a name under "refs/"
      resolves when the table holds it and some commit has its hash, any
      other name when some commit has it for hash. */
  lemma ResolveCommitSpec(repo: Repo, refName: string)
    ensures var r := ResolveCommit(repo, refName);
      && (r.Ok? ==> r.value in repo.commits)
      && (HasPrefix(refName, "refs/") ==>
            (r.Ok? <==> refName in repo.refs && exists i :: 0 <= i < |repo.commits| && repo.commits[i].hash == repo.refs[refName].Hash()))
      && (HasPrefix(refName, "refs/") && r.Ok? ==> r.value.hash == repo.refs[refName].Hash())
      && (!HasPrefix(refName, "refs/") ==>
            (r.Ok? <==> exists i :: 0 <= i < |repo.commits| && repo.commits[i].hash == refName))
      && (!HasPrefix(refName, "refs/") && r.Ok? ==> r.value.hash == refName)
      && (!HasPrefix(refName, "refs/") && r.Err? ==> r.error == "Could not find commit")
  {
    if HasPrefix(refName, "refs/") {
      if refName in repo.refs {
        FirstWithHashSpec(repo.commits, repo.refs[refName].Hash());
      }
    } else {
      FirstWithHashSpec(repo.commits, refName);
    }
  }

  predicate IsManifest(f: TreeFile, kubeFolder: string) {
    HasPrefix(f.name, kubeFolder)
  }

  /** The first failing disk step for a file, if any. */
  function IoFault(name: string, io: (string, IoStep) -> Option<string>): (e: Option<string>)
    ensures e.None? <==> io(name, Create).None? && io(name, Read).None? && io(name, Chmod).None? && io(name, Copy).None?
    ensures io(name, Create).Some? ==> e == io(name, Create)
    ensures io(name, Create).None? && io(name, Read).Some? ==> e == io(name, Read)
    ensures io(name, Create).None? && io(name, Read).None? && io(name, Chmod).Some? ==> e == io(name, Chmod)
    ensures io(name, Create).None? && io(name, Read).None? && io(name, Chmod).None? ==> e == io(name, Copy)
  {
    if io(name, Create).Some? then io(name, Create)
    else if io(name, Read).Some? then io(name, Read)
    else if io(name, Chmod).Some? then io(name, Chmod)
    else io(name, Copy)
  }

  /** Writing one manifest and handing it to the callback. */
  function Visit(f: TreeFile, w: Walker): Walked {
    var fault := IoFault(f.name, w.io);
    if fault.Some? then Walked(fault, [], [])
    else
      var path := w.repoPath + "/" + f.name;
      Walked(w.cb(path, w.hash), [Written(f.name, f.mode)], [Call(path, w.hash)])
  }

  const NoWalk := Walked(None, [], [])

  /** The walk over the tree files, continuing from what has been done. */
  function WalkFrom(acc: Walked, files: seq<TreeFile>, w: Walker): Walked
    requires acc.err.None?
    decreases |files|
  {
    if files == [] then acc
    else if !IsManifest(files[0], w.kubeFolder) then WalkFrom(acc, files[1..], w)
    else
      var v := Visit(files[0], w);
      var next := Walked(v.err, acc.written + v.written, acc.calls + v.calls);
      if v.err.Some? then next else WalkFrom(next, files[1..], w)
  }

  /** The walk of git.go: it succeeds exactly when every manifest is
      accepted, making the reference calls and writes; otherwise the first
      failing manifest stops it, and its error is the walk's. */
  method WalkFiles(files: seq<TreeFile>, w: Walker) returns (r: Walked)
    ensures r == WalkFrom(NoWalk, files, w)
    ensures r.err.None? <==> AllAccepted(files, w)
    ensures r.err.None? ==> r.calls == ManifestCalls(files, w) && r.written == ManifestWrites(files, w.kubeFolder)
    ensures r.err.Some? ==> exists j: nat :: FirstFailure(files, w, j)
    ensures forall j: nat :: FirstFailure(files, w, j) ==>
      && r.err == Visit(files[j], w).err
      && r.calls == ManifestCalls(files[..j], w) + Visit(files[j], w).calls
      && r.written == ManifestWrites(files[..j], w.kubeFolder) + Visit(files[j], w).written
  {
    WalkFromNoWalk(files, w);
    r := NoWalk;
    var i := 0;
    while i < |files|
      invariant 0 <= i <= |files|
      invariant r.err.None?
      invariant WalkFrom(r, files[i..], w) == WalkFrom(NoWalk, files, w)
    {
      assert files[i..][1..] == files[i + 1..];
      var f := files[i];
      if IsManifest(f, w.kubeFolder) {
        var v := Visit(f, w);
        r := Walked(v.err, r.written + v.written, r.calls + v.calls);
        if v.err.Some? {
          return;
        }
      }
      i := i + 1;
    }
  }

  /** The walk from the start: WalkFromSpec and WalkFromFirstError with
      nothing done before. */
  lemma WalkFromNoWalk(files: seq<TreeFile>, w: Walker)
    ensures var r := WalkFrom(NoWalk, files, w);
      && (r.err.None? <==> AllAccepted(files, w))
      && (r.err.None? ==> r.calls == ManifestCalls(files, w) && r.written == ManifestWrites(files, w.kubeFolder))
      && (r.err.Some? ==> exists j: nat :: FirstFailure(files, w, j))
      && forall j: nat :: FirstFailure(files, w, j) ==>
           && r.err == Visit(files[j], w).err
           && r.calls == ManifestCalls(files[..j], w) + Visit(files[j], w).calls
           && r.written == ManifestWrites(files[..j], w.kubeFolder) + Visit(files[j], w).written
  {
    var r := WalkFrom(NoWalk, files, w);
    WalkFromSpec(NoWalk, files, w);
    assert [] + ManifestCalls(files, w) == ManifestCalls(files, w);
    assert [] + ManifestWrites(files, w.kubeFolder) == ManifestWrites(files, w.kubeFolder);
    if r.err.Some? {
      FirstFailureExists(files, w);
    }
    forall j: nat | FirstFailure(files, w, j)
      ensures r.err == Visit(files[j], w).err
      ensures r.calls == ManifestCalls(files[..j], w) + Visit(files[j], w).calls
      ensures r.written == ManifestWrites(files[..j], w.kubeFolder) + Visit(files[j], w).written
    {
      WalkFromFirstError(NoWalk, files, w, j);
      assert [] + ManifestCalls(files[..j], w) == ManifestCalls(files[..j], w);
      assert [] + ManifestWrites(files[..j], w.kubeFolder) == ManifestWrites(files[..j], w.kubeFolder);
    }
  }

  /** Reference definitions: the calls and writes a walk makes when nothing fails. */
  function ManifestCalls(files: seq<TreeFile>, w: Walker): seq<Call> {
    if files == [] then []
    else
      (if IsManifest(files[0], w.kubeFolder) then [Call(w.repoPath + "/" + files[0].name, w.hash)] else [])
      + ManifestCalls(files[1..], w)
  }

  function ManifestWrites(files: seq<TreeFile>, kubeFolder: string): seq<Written> {
    if files == [] then []
    else
      (if IsManifest(files[0], kubeFolder) then [Written(files[0].name, files[0].mode)] else [])
      + ManifestWrites(files[1..], kubeFolder)
  }

  /** Every manifest is written and accepted by the callback. */
  predicate AllAccepted(files: seq<TreeFile>, w: Walker) {
    forall i :: 0 <= i < |files| && IsManifest(files[i], w.kubeFolder) ==> Visit(files[i], w).err.None?
  }

  predicate IsPrefix<T(==)>(a: seq<T>, b: seq<T>) {
    |a| <= |b| && b[..|a|] == a
  }

  lemma AllAcceptedTail(files: seq<TreeFile>, w: Walker)
    requires files != []
    ensures AllAccepted(files, w) <==>
      (IsManifest(files[0], w.kubeFolder) ==> Visit(files[0], w).err.None?) && AllAccepted(files[1..], w)
  {
    if (IsManifest(files[0], w.kubeFolder) ==> Visit(files[0], w).err.None?) && AllAccepted(files[1..], w) {
      forall i | 0 <= i < |files| && IsManifest(files[i], w.kubeFolder) ensures Visit(files[i], w).err.None? {
        if i > 0 {
          assert files[i] == files[1..][i - 1];
        }
      }
    }
  }

  /** The walk succeeds exactly when every manifest is accepted; it then makes
      exactly the reference calls and writes, and otherwise a prefix of them. */
  lemma {:induction false} WalkFromSpec(acc: Walked, files: seq<TreeFile>, w: Walker)
    requires acc.err.None?
    ensures var r := WalkFrom(acc, files, w);
      && (r.err.None? <==> AllAccepted(files, w))
      && (r.err.None? ==> r.calls == acc.calls + ManifestCalls(files, w))
      && (r.err.None? ==> r.written == acc.written + ManifestWrites(files, w.kubeFolder))
      && IsPrefix(r.calls, acc.calls + ManifestCalls(files, w))
      && IsPrefix(r.written, acc.written + ManifestWrites(files, w.kubeFolder))
    decreases |files|
  {
    if files == [] {
      assert acc.calls + [] == acc.calls;
      assert acc.written + [] == acc.written;
    } else {
      AllAcceptedTail(files, w);
      var mc := ManifestCalls(files[1..], w);
      var mw := ManifestWrites(files[1..], w.kubeFolder);
      if !IsManifest(files[0], w.kubeFolder) {
        WalkFromSpec(acc, files[1..], w);
        assert ManifestCalls(files, w) == [] + mc;
        assert ManifestWrites(files, w.kubeFolder) == [] + mw;
      } else {
        var v := Visit(files[0], w);
        var next := Walked(v.err, acc.written + v.written, acc.calls + v.calls);
        var c := Call(w.repoPath + "/" + files[0].name, w.hash);
        var wr := Written(files[0].name, files[0].mode);
        assert ManifestCalls(files, w) == [c] + mc;
        assert ManifestWrites(files, w.kubeFolder) == [wr] + mw;
        assert acc.calls + ([c] + mc) == (acc.calls + [c]) + mc;
        assert acc.written + ([wr] + mw) == (acc.written + [wr]) + mw;
        if v.err.Some? {
          assert (acc.calls + ([c] + mc))[..|acc.calls + v.calls|] == acc.calls + v.calls;
          assert (acc.written + ([wr] + mw))[..|acc.written + v.written|] == acc.written + v.written;
        } else {
          WalkFromSpec(next, files[1..], w);
        }
      }
    }
  }

  /** Manifest j is the first one the walk fails on. */
  predicate FirstFailure(files: seq<TreeFile>, w: Walker, j: nat) {
    && j < |files| && IsManifest(files[j], w.kubeFolder) && Visit(files[j], w).err.Some?
    && forall i :: 0 <= i < j && IsManifest(files[i], w.kubeFolder) ==> Visit(files[i], w).err.None?
  }

  /** A walk that fails has a first failing manifest. */
  lemma {:induction false} FirstFailureExists(files: seq<TreeFile>, w: Walker)
    requires !AllAccepted(files, w)
    ensures exists j: nat :: FirstFailure(files, w, j)
    decreases |files|
  {
    AllAcceptedTail(files, w);
    if IsManifest(files[0], w.kubeFolder) && Visit(files[0], w).err.Some? {
      assert FirstFailure(files, w, 0);
    } else {
      FirstFailureExists(files[1..], w);
      var j: nat :| FirstFailure(files[1..], w, j);
      forall i | 0 <= i < j + 1 && IsManifest(files[i], w.kubeFolder) ensures Visit(files[i], w).err.None? {
        if i > 0 { assert files[i] == files[1..][i - 1]; }
      }
      assert FirstFailure(files, w, j + 1);
    }
  }

  /** A walk from `acc` that stops at manifest j: the manifests before it
      were all accepted, and the failing visit adds what it did (a write
      and a call when the callback refused, nothing when the disk failed). */
  function StopAt(acc: Walked, files: seq<TreeFile>, w: Walker, j: nat): Walked
    requires j < |files|
  {
    var vj := Visit(files[j], w);
    Walked(vj.err, acc.written + ManifestWrites(files[..j], w.kubeFolder) + vj.written,
           acc.calls + ManifestCalls(files[..j], w) + vj.calls)
  }

  /** The walk stops at the first failing manifest, and its error is that
      manifest's. */
  lemma {:induction false} WalkFromFirstError(acc: Walked, files: seq<TreeFile>, w: Walker, j: nat)
    requires acc.err.None?
    requires FirstFailure(files, w, j)
    ensures WalkFrom(acc, files, w) == StopAt(acc, files, w, j)
    ensures WalkFrom(acc, files, w).err == Visit(files[j], w).err
    decreases |files|
  {
    var v := Visit(files[0], w);
    if j == 0 {
      assert files[..0] == [];
      assert acc.calls + [] + v.calls == acc.calls + v.calls;
      assert acc.written + [] + v.written == acc.written + v.written;
    } else {
      FirstFailureTail(files, w, j);
      StopAtCons(acc, files, w, j);
      if IsManifest(files[0], w.kubeFolder) {
        WalkFromFirstError(Walked(None, acc.written + v.written, acc.calls + v.calls), files[1..], w, j - 1);
      } else {
        WalkFromFirstError(acc, files[1..], w, j - 1);
      }
    }
  }

  /** Stopping at manifest j is stopping at j - 1 in the rest of the files,
      once the first file is accounted for. */
  lemma StopAtCons(acc: Walked, files: seq<TreeFile>, w: Walker, j: nat)
    requires 0 < j < |files|
    requires IsManifest(files[0], w.kubeFolder) ==> Visit(files[0], w).err.None?
    ensures var v := Visit(files[0], w);
      StopAt(acc, files, w, j)
        == StopAt(if IsManifest(files[0], w.kubeFolder) then Walked(None, acc.written + v.written, acc.calls + v.calls) else acc,
                  files[1..], w, j - 1)
  {
    var v := Visit(files[0], w);
    var vj := Visit(files[j], w);
    assert files[1..][j - 1] == files[j];
    ManifestsBeforeCons(files, w, j);
    var mc := ManifestCalls(files[1..][..j - 1], w);
    var mw := ManifestWrites(files[1..][..j - 1], w.kubeFolder);
    if IsManifest(files[0], w.kubeFolder) {
      assert acc.calls + (v.calls + mc) + vj.calls == (acc.calls + v.calls) + mc + vj.calls;
      assert acc.written + (v.written + mw) + vj.written == (acc.written + v.written) + mw + vj.written;
    } else {
      assert [] + mc == mc && [] + mw == mw;
    }
  }

  lemma FirstFailureTail(files: seq<TreeFile>, w: Walker, j: nat)
    requires FirstFailure(files, w, j) && 0 < j
    ensures FirstFailure(files[1..], w, j - 1)
    ensures IsManifest(files[0], w.kubeFolder) ==> Visit(files[0], w).err.None?
  {
    var tail := files[1..];
    forall i | 0 <= i < j - 1 && IsManifest(tail[i], w.kubeFolder) ensures Visit(tail[i], w).err.None? {
      assert tail[i] == files[i + 1];
    }
  }

  /** The reference calls and writes of the files before j, by their first
      file, which is accepted when it is a manifest. */
  lemma ManifestsBeforeCons(files: seq<TreeFile>, w: Walker, j: nat)
    requires 0 < j <= |files|
    requires IsManifest(files[0], w.kubeFolder) ==> Visit(files[0], w).err.None?
    ensures ManifestCalls(files[..j], w)
      == (if IsManifest(files[0], w.kubeFolder) then Visit(files[0], w).calls else []) + ManifestCalls(files[1..][..j - 1], w)
    ensures ManifestWrites(files[..j], w.kubeFolder)
      == (if IsManifest(files[0], w.kubeFolder) then Visit(files[0], w).written else []) + ManifestWrites(files[1..][..j - 1], w.kubeFolder)
  {
    assert files[..j][1..] == files[1..][..j - 1];
    assert files[..j][0] == files[0];
  }

  /** Every reference call passes the clone path joined with a manifest's
      name, and the walked commit's hash. */
  lemma {:induction false} ManifestCallsShape(files: seq<TreeFile>, w: Walker, k: nat)
    requires k < |ManifestCalls(files, w)|
    ensures ManifestCalls(files, w)[k].hash == w.hash
    ensures exists i :: 0 <= i < |files| && IsManifest(files[i], w.kubeFolder) &&
                        ManifestCalls(files, w)[k].path == w.repoPath + "/" + files[i].name
    decreases |files|
  {
    var head := if IsManifest(files[0], w.kubeFolder) then [Call(w.repoPath + "/" + files[0].name, w.hash)] else [];
    assert ManifestCalls(files, w) == head + ManifestCalls(files[1..], w);
    if k < |head| {
      assert IsManifest(files[0], w.kubeFolder);
    } else {
      ManifestCallsShape(files[1..], w, k - |head|);
      var i :| 0 <= i < |files[1..]| && IsManifest(files[1..][i], w.kubeFolder)
        && ManifestCalls(files[1..], w)[k - |head|].path == w.repoPath + "/" + files[1..][i].name;
      assert files[1..][i] == files[i + 1];
    }
  }

  /** Every reference write is a manifest of the tree, with the mode its
      tree entry records. */
  lemma {:induction false} ManifestWritesShape(files: seq<TreeFile>, kubeFolder: string, k: nat)
    requires k < |ManifestWrites(files, kubeFolder)|
    ensures exists i :: 0 <= i < |files| && IsManifest(files[i], kubeFolder) &&
                        ManifestWrites(files, kubeFolder)[k] == Written(files[i].name, files[i].mode)
    decreases |files|
  {
    var head := if IsManifest(files[0], kubeFolder) then [Written(files[0].name, files[0].mode)] else [];
    assert ManifestWrites(files, kubeFolder) == head + ManifestWrites(files[1..], kubeFolder);
    if k < |head| {
      assert IsManifest(files[0], kubeFolder);
    } else {
      ManifestWritesShape(files[1..], kubeFolder, k - |head|);
      var i :| 0 <= i < |files[1..]| && IsManifest(files[1..][i], kubeFolder)
        && ManifestWrites(files[1..], kubeFolder)[k - |head|] == Written(files[1..][i].name, files[1..][i].mode);
      assert files[1..][i] == files[i + 1];
    }
  }

  /** Without manifests a walk touches nothing. */
  lemma {:induction false} NoManifestsNoCalls(files: seq<TreeFile>, w: Walker)
    requires forall i :: 0 <= i < |files| ==> !IsManifest(files[i], w.kubeFolder)
    ensures ManifestCalls(files, w) == [] && ManifestWrites(files, w.kubeFolder) == []
    decreases |files|
  {
    if files != [] {
      assert forall i :: 0 <= i < |files[1..]| ==> files[1..][i] == files[i + 1];
      NoManifestsNoCalls(files[1..], w);
    }
  }

  /** The walker cloneFiles uses for a commit. */
  function WalkerFor(c: Commit, baseDir: string, uri: string, kubeFolder: string,
                     io: (string, IoStep) -> Option<string>, cb: (string, string) -> Option<string>): Walker
  {
    Walker(kubeFolder, RepoPath(baseDir, uri), c.hash, io, cb)
  }

  /** What cloneFiles does, given the remotes it can reach. */
  function Fetch(remotes: map<string, Repo>, uri: string, refName: string, baseDir: string, kubeFolder: string,
                 io: (string, IoStep) -> Option<string>, cb: (string, string) -> Option<string>): Fetched
  {
    if uri !in remotes then Fetched(Err("repository not found"), [], [])
    else match ResolveCommit(remotes[uri], refName)
      case Err(e) => Fetched(Err(e), [], [])
      case Ok(c) =>
        var r := WalkFrom(NoWalk, c.files, WalkerFor(c, baseDir, uri, kubeFolder, io, cb));
        if r.err.Some? then Fetched(Err(r.err.value), r.written, r.calls)
        else Fetched(Ok(c.hash), r.written, r.calls)
  }

  method CloneFiles(remotes: map<string, Repo>, uri: string, refName: string, baseDir: string, kubeFolder: string,
                    io: (string, IoStep) -> Option<string>, cb: (string, string) -> Option<string>)
    returns (f: Fetched)
    ensures f == Fetch(remotes, uri, refName, baseDir, kubeFolder, io, cb)
  {
    if uri !in remotes {
      return Fetched(Err("repository not found"), [], []);
    }
    var repo := remotes[uri];
    var commit: Commit;
    if HasPrefix(refName, "refs/") {
      if refName !in repo.refs {
        return Fetched(Err("reference not found"), [], []);
      }
      match FirstWithHash(repo.commits, repo.refs[refName].Hash())
      case None =>
        return Fetched(Err("object not found"), [], []);
      case Some(i) =>
        commit := repo.commits[i];
    } else {
      var found := ScanCommits(repo.commits, refName);
      if found.None? {
        return Fetched(Err("Could not find commit"), [], []);
      }
      commit := found.value;
    }
    var r := WalkFiles(commit.files, WalkerFor(commit, baseDir, uri, kubeFolder, io, cb));
    if r.err.Some? {
      return Fetched(Err(r.err.value), r.written, r.calls);
    }
    return Fetched(Ok(commit.hash), r.written, r.calls);
  }

  /** cloneFiles succeeds exactly when the repository is reachable, the ref
      resolves and every manifest is written and accepted; it then returns
      the commit's hash and has made every reference call and write. */
  lemma FetchOk(remotes: map<string, Repo>, uri: string, refName: string, baseDir: string, kubeFolder: string,
                io: (string, IoStep) -> Option<string>, cb: (string, string) -> Option<string>)
    ensures var f := Fetch(remotes, uri, refName, baseDir, kubeFolder, io, cb);
      f.result.Ok? <==>
        uri in remotes && ResolveCommit(remotes[uri], refName).Ok?
        && AllAccepted(ResolveCommit(remotes[uri], refName).value.files,
                       WalkerFor(ResolveCommit(remotes[uri], refName).value, baseDir, uri, kubeFolder, io, cb))
    ensures var f := Fetch(remotes, uri, refName, baseDir, kubeFolder, io, cb);
      f.result.Ok? ==>
        var c := ResolveCommit(remotes[uri], refName).value;
        f.result.value == c.hash
        && f.calls == ManifestCalls(c.files, WalkerFor(c, baseDir, uri, kubeFolder, io, cb))
        && f.written == ManifestWrites(c.files, kubeFolder)
  {
    if uri in remotes && ResolveCommit(remotes[uri], refName).Ok? {
      var c := ResolveCommit(remotes[uri], refName).value;
      var w := WalkerFor(c, baseDir, uri, kubeFolder, io, cb);
      WalkFromSpec(NoWalk, c.files, w);
      assert [] + ManifestCalls(c.files, w) == ManifestCalls(c.files, w);
      assert [] + ManifestWrites(c.files, kubeFolder) == ManifestWrites(c.files, kubeFolder);
    }
  }

  /** Every callback invocation, successful or not, receives the clone path
      joined with the name of a manifest of the resolved commit, and that
      commit's hash, which is also what a successful fetch returns. */
  lemma FetchCalls(remotes: map<string, Repo>, uri: string, refName: string, baseDir: string, kubeFolder: string,
                   io: (string, IoStep) -> Option<string>, cb: (string, string) -> Option<string>, k: nat)
    requires k < |Fetch(remotes, uri, refName, baseDir, kubeFolder, io, cb).calls|
    ensures uri in remotes && ResolveCommit(remotes[uri], refName).Ok?
    ensures var c := ResolveCommit(remotes[uri], refName).value;
      var call := Fetch(remotes, uri, refName, baseDir, kubeFolder, io, cb).calls[k];
      && call.hash == c.hash
      && exists i :: 0 <= i < |c.files| && IsManifest(c.files[i], kubeFolder)
           && call.path == RepoPath(baseDir, uri) + "/" + c.files[i].name
    ensures var f := Fetch(remotes, uri, refName, baseDir, kubeFolder, io, cb);
      f.result.Ok? ==> f.calls[k].hash == f.result.value
  {
    FetchPrefix(remotes, uri, refName, baseDir, kubeFolder, io, cb);
    var c := ResolveCommit(remotes[uri], refName).value;
    var w := WalkerFor(c, baseDir, uri, kubeFolder, io, cb);
    var f := Fetch(remotes, uri, refName, baseDir, kubeFolder, io, cb);
    assert f.calls[k] == ManifestCalls(c.files, w)[k];
    ManifestCallsShape(c.files, w, k);
  }

  /** Whatever the outcome, a fetch has made a prefix of the reference calls
      and writes of the commit it resolved, and none when it resolved none. */
  lemma FetchPrefix(remotes: map<string, Repo>, uri: string, refName: string, baseDir: string, kubeFolder: string,
                    io: (string, IoStep) -> Option<string>, cb: (string, string) -> Option<string>)
    ensures var f := Fetch(remotes, uri, refName, baseDir, kubeFolder, io, cb);
      if uri in remotes && ResolveCommit(remotes[uri], refName).Ok? then
        var c := ResolveCommit(remotes[uri], refName).value;
        && IsPrefix(f.calls, ManifestCalls(c.files, WalkerFor(c, baseDir, uri, kubeFolder, io, cb)))
        && IsPrefix(f.written, ManifestWrites(c.files, kubeFolder))
        && (f.result.Ok? ==> f.result.value == c.hash)
      else f.calls == [] && f.written == []
  {
    if uri in remotes && ResolveCommit(remotes[uri], refName).Ok? {
      var c := ResolveCommit(remotes[uri], refName).value;
      var w := WalkerFor(c, baseDir, uri, kubeFolder, io, cb);
      WalkFromSpec(NoWalk, c.files, w);
      assert [] + ManifestCalls(c.files, w) == ManifestCalls(c.files, w);
      assert [] + ManifestWrites(c.files, kubeFolder) == ManifestWrites(c.files, kubeFolder);
    }
  }

  /** After a successful fetch the callback accepted every call it was given. */
  lemma FetchAccepted(remotes: map<string, Repo>, uri: string, refName: string, baseDir: string, kubeFolder: string,
                      io: (string, IoStep) -> Option<string>, cb: (string, string) -> Option<string>, k: nat)
    requires Fetch(remotes, uri, refName, baseDir, kubeFolder, io, cb).result.Ok?
    requires k < |Fetch(remotes, uri, refName, baseDir, kubeFolder, io, cb).calls|
    ensures var call := Fetch(remotes, uri, refName, baseDir, kubeFolder, io, cb).calls[k];
      cb(call.path, call.hash).None?
  {
    FetchOk(remotes, uri, refName, baseDir, kubeFolder, io, cb);
    var c := ResolveCommit(remotes[uri], refName).value;
    var w := WalkerFor(c, baseDir, uri, kubeFolder, io, cb);
    ManifestCallsShape(c.files, w, k);
    var i :| 0 <= i < |c.files| && IsManifest(c.files[i], w.kubeFolder) &&
             ManifestCalls(c.files, w)[k].path == w.repoPath + "/" + c.files[i].name;
    assert Visit(c.files[i], w).err.None?;
  }

  /** Every file written is a manifest of the resolved commit, with the mode
      its tree entry records. */
  lemma FetchWrites(remotes: map<string, Repo>, uri: string, refName: string, baseDir: string, kubeFolder: string,
                    io: (string, IoStep) -> Option<string>, cb: (string, string) -> Option<string>, k: nat)
    requires k < |Fetch(remotes, uri, refName, baseDir, kubeFolder, io, cb).written|
    ensures uri in remotes && ResolveCommit(remotes[uri], refName).Ok?
    ensures var c := ResolveCommit(remotes[uri], refName).value;
      var wr := Fetch(remotes, uri, refName, baseDir, kubeFolder, io, cb).written[k];
      exists i :: 0 <= i < |c.files| && IsManifest(c.files[i], kubeFolder) && wr == Written(c.files[i].name, c.files[i].mode)
  {
    FetchPrefix(remotes, uri, refName, baseDir, kubeFolder, io, cb);
    var c := ResolveCommit(remotes[uri], refName).value;
    var f := Fetch(remotes, uri, refName, baseDir, kubeFolder, io, cb);
    assert f.written[k] == ManifestWrites(c.files, kubeFolder)[k];
    ManifestWritesShape(c.files, kubeFolder, k);
  }

  /** The manifest test is a plain string prefix, not a directory test. */
  lemma PrefixIsPlain()
    ensures IsManifest(TreeFile("k8s-old/service.yaml", 420), "k8s")
    ensures !IsManifest(TreeFile("deploy/k8s/service.yaml", 420), "k8s")
  {
    assert "deploy/k8s/service.yaml"[..3] == "dep";
  }
}
