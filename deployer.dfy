/** main.go (with the Config and Repository records of config.go): one
    deployment pass. The cluster is an object holding its namespaces and
    the log of manifests applied to it; kubectl's failures are given by a
    fault function. Environment variables, the parsed configuration file
    and the local manifest folder listing are parameters. */
module Deployer {
  import opened Wrappers
  import opened GoStrings
  import Env
  import State
  import Git

  datatype Repository = Repository(name: string, uri: string, commit: string)

  datatype Config = Config(
    namespace: string,
    repositories: seq<Repository>,
    defaultBranch: string,
    kubeFolder: string,
    baseDir: string,
    updateRepoVar: string,
    updateRefVar: string)

  /** The command-line flags. */
  datatype Flags = Flags(config: string, redis: string, namespace: string, artifact: string, clearState: bool)

  /** What a template renders for a variable the environment does not set. */
  const NoValue := "<no value>"
  const DefaultNamespace := "dev"
  const DefaultBranch := "master"
  const DefaultKubeFolder := "k8s"
  const DefaultBaseDir := "/tmp/deployer/"
  const ErrMissingConfig := "Missing required field: config"
  const BranchPrefix := "refs/remotes/origin/"

  predicate Unset(v: string) {
    v == "" || v == NoValue
  }

  /** The configuration once its defaults are filled in and the namespace
      flag applied. */
  function Defaults(c: Config, namespaceFlag: string): Config {
    var ns := if Unset(c.namespace) then DefaultNamespace else c.namespace;
    c.(namespace := if namespaceFlag != "" then namespaceFlag else ns,
       defaultBranch := if Unset(c.defaultBranch) then DefaultBranch else c.defaultBranch,
       kubeFolder := if Unset(c.kubeFolder) then DefaultKubeFolder else c.kubeFolder,
       baseDir := if Unset(c.baseDir) then DefaultBaseDir else c.baseDir)
  }

  /** Defaulting gives an unset namespace "dev", an unset default branch
      "master", an unset manifest folder "k8s" and an unset base directory
      "/tmp/deployer/"; a namespace flag wins over the configured
      namespace. It leaves no defaulted field unset (the namespace too,
      unless the flag itself says "<no value>"), keeps set values, and
      changes nothing when done twice. */
  lemma DefaultsProps(c: Config, namespaceFlag: string)
    ensures var d := Defaults(c, namespaceFlag);
      && (namespaceFlag != "" ==> d.namespace == namespaceFlag)
      && (namespaceFlag == "" && Unset(c.namespace) ==> d.namespace == "dev")
      && (Unset(c.defaultBranch) ==> d.defaultBranch == "master")
      && (Unset(c.kubeFolder) ==> d.kubeFolder == "k8s")
      && (Unset(c.baseDir) ==> d.baseDir == "/tmp/deployer/")
      && !Unset(d.defaultBranch) && !Unset(d.kubeFolder) && !Unset(d.baseDir)
      && (namespaceFlag != NoValue ==> !Unset(d.namespace))
      && (!Unset(c.defaultBranch) ==> d.defaultBranch == c.defaultBranch)
      && (!Unset(c.kubeFolder) ==> d.kubeFolder == c.kubeFolder)
      && (!Unset(c.baseDir) ==> d.baseDir == c.baseDir)
      && (namespaceFlag == "" && !Unset(c.namespace) ==> d.namespace == c.namespace)
      && d.repositories == c.repositories
      && d.updateRepoVar == c.updateRepoVar && d.updateRefVar == c.updateRefVar
      && Defaults(d, namespaceFlag) == d
  {
  }

  /** The update signal: the values of the variables the configuration names. */
  datatype Signal = Signal(repo: string, ref: string)

  /** The signal targets this repository. */
  predicate Overrides(repo: Repository, sig: Signal) {
    repo.name != "" && repo.name == sig.repo && sig.ref != ""
  }

  /** The previous commit, compared with the fetched one, and the ref to fetch. */
  datatype Resolution = Resolution(oldRef: string, refName: string)

  function FirstNonEmpty(xs: seq<string>): (r: string)
    ensures r == "" <==> forall i :: 0 <= i < |xs| ==> xs[i] == ""
    ensures r != "" ==> exists i :: 0 <= i < |xs| && xs[i] == r && forall j :: 0 <= j < i ==> xs[j] == ""
  {
    if xs == [] then ""
    else if xs[0] != "" then xs[0]
    else
      var r := FirstNonEmpty(xs[1..]);
      assert forall i :: 0 <= i < |xs[1..]| ==> xs[1..][i] == xs[i + 1];
      r
  }

  lemma {:induction false} FirstNonEmptyOfFour(a: string, b: string, c: string, d: string)
    ensures FirstNonEmpty([a, b, c, d]) == if a != "" then a else if b != "" then b else if c != "" then c else d
  {
    assert [a, b, c, d][1..] == [b, c, d];
    assert [b, c, d][1..] == [c, d];
    assert [c, d][1..] == [d];
    assert [d][1..] == [];
    assert FirstNonEmpty([d]) == d;
    assert FirstNonEmpty([c, d]) == if c != "" then c else d;
    assert FirstNonEmpty([b, c, d]) == if b != "" then b else FirstNonEmpty([c, d]);
  }

  /** What a lookup of the store yields: nothing without a store, else the
      stored value or "" (the store's error is ignored). */
  function StoredValue(stored: Option<string>): string {
    if stored.None? then "" else stored.value
  }

  /** Picks the ref for one repository. `stored` is what the store would
      answer, None without a store; it is only asked when neither the
      signal nor a pinned commit decides. */
  function Resolve(repo: Repository, sig: Signal, stored: Option<string>, defaultBranch: string): (r: Resolution)
    ensures r.refName != ""
    ensures r.refName == FirstNonEmpty([if Overrides(repo, sig) then sig.ref else "", repo.commit,
                                        StoredValue(stored), BranchPrefix + defaultBranch])
    ensures r.oldRef == if Overrides(repo, sig) then repo.commit else FirstNonEmpty([repo.commit, StoredValue(stored)])
  {
    FirstNonEmptyOfFour(if Overrides(repo, sig) then sig.ref else "", repo.commit,
                        StoredValue(stored), BranchPrefix + defaultBranch);
    if Overrides(repo, sig) then Resolution(repo.commit, sig.ref)
    else
      var oldRef := if repo.commit == "" && stored.Some? then stored.value else repo.commit;
      Resolution(oldRef, if oldRef != "" then oldRef else BranchPrefix + defaultBranch)
  }

  /** The precedence of the code: the signal, then the pinned commit, then
      the stored commit, then the default branch. A pinned commit beats the
      stored one, and the store matters only when neither signal nor pin
      decides. */
  lemma ResolvePrecedence(repo: Repository, sig: Signal, stored: Option<string>, other: Option<string>, defaultBranch: string)
    ensures Overrides(repo, sig) ==>
      Resolve(repo, sig, stored, defaultBranch) == Resolution(repo.commit, sig.ref)
    ensures !Overrides(repo, sig) && repo.commit != "" ==>
      Resolve(repo, sig, stored, defaultBranch) == Resolution(repo.commit, repo.commit)
    ensures !Overrides(repo, sig) && repo.commit == "" && StoredValue(stored) != "" ==>
      Resolve(repo, sig, stored, defaultBranch) == Resolution(stored.value, stored.value)
    ensures !Overrides(repo, sig) && repo.commit == "" && StoredValue(stored) == "" ==>
      Resolve(repo, sig, stored, defaultBranch) == Resolution("", BranchPrefix + defaultBranch)
    ensures Overrides(repo, sig) || repo.commit != "" ==>
      Resolve(repo, sig, stored, defaultBranch) == Resolve(repo, sig, other, defaultBranch)
  {
  }

  /** One manifest applied: the file, the tag (the commit, or "" for the
      local folder) and the variables its template is rendered with. */
  datatype Applied = Applied(file: string, tag: string, env: map<string, string>)

  /** The target cluster. */
  class Cluster {
    var namespaces: set<string>
    var applied: seq<Applied>
    /** How `kubectl create namespace` fails, if it does. */
    const createFault: Option<string>
    /** How applying a file fails, if it does. */
    const applyFault: string -> Option<string>

    constructor (namespaces: set<string>, createFault: Option<string>, applyFault: string -> Option<string>)
      ensures this.namespaces == namespaces && applied == []
      ensures this.createFault == createFault && this.applyFault == applyFault
    {
      this.namespaces := namespaces;
      applied := [];
      this.createFault := createFault;
      this.applyFault := applyFault;
    }

    predicate NamespaceExists(ns: string)
      reads this
    {
      ns in namespaces
    }

    method CreateNamespace(ns: string) returns (err: Option<string>)
      modifies this
      ensures applied == old(applied)
      ensures err == createFault
      ensures createFault.None? ==> namespaces == old(namespaces) + {ns}
      ensures createFault.Some? ==> namespaces == old(namespaces)
    {
      if createFault.Some? {
        return createFault;
      }
      namespaces := namespaces + {ns};
      return None;
    }

    /** kubeApply. */
    method Apply(file: string, tag: string, env: map<string, string>) returns (err: Option<string>)
      modifies this
      ensures namespaces == old(namespaces)
      ensures err == applyFault(file)
      ensures err.None? ==> applied == old(applied) + [Applied(file, tag, env)]
      ensures err.Some? ==> applied == old(applied)
    {
      err := applyFault(file);
      if err.None? {
        applied := applied + [Applied(file, tag, env)];
      }
    }

    /** Records applies made from within a fetch's file callback. */
    method Record(entries: seq<Applied>)
      modifies this
      ensures namespaces == old(namespaces)
      ensures applied == old(applied) + entries
    {
      applied := applied + entries;
    }
  }

  /** The file callback of main.go: apply unless the fetched commit is the
      previous one. */
  function Callback(oldRef: string, applyFault: string -> Option<string>): (string, string) -> Option<string> {
    (path: string, hash: string) => if oldRef != hash then applyFault(path) else None
  }

  /** The applies the callback made, given the calls of a fetch. */
  function Applies(calls: seq<Git.Call>, oldRef: string, applyFault: string -> Option<string>, env: map<string, string>): seq<Applied> {
    if calls == [] then []
    else
      var c := calls[0];
      (if oldRef != c.hash && applyFault(c.path).None? then [Applied(c.path, c.hash, env)] else [])
      + Applies(calls[1..], oldRef, applyFault, env)
  }

  /** The callback applies nothing when every call carries the previous commit. */
  lemma {:induction false} AppliesNone(calls: seq<Git.Call>, oldRef: string, applyFault: string -> Option<string>,
                                       env: map<string, string>)
    requires forall k :: 0 <= k < |calls| ==> calls[k].hash == oldRef
    ensures Applies(calls, oldRef, applyFault, env) == []
    decreases |calls|
  {
    if calls != [] {
      assert forall k :: 0 <= k < |calls[1..]| ==> calls[1..][k] == calls[k + 1];
      AppliesNone(calls[1..], oldRef, applyFault, env);
    }
  }

  /** When every call carries a new commit and was accepted, every call is
      applied, in order, tagged with its commit. */
  lemma {:induction false} AppliesAll(calls: seq<Git.Call>, oldRef: string, applyFault: string -> Option<string>,
                                      env: map<string, string>)
    requires forall k :: 0 <= k < |calls| ==> calls[k].hash != oldRef && applyFault(calls[k].path).None?
    ensures var r := Applies(calls, oldRef, applyFault, env);
      |r| == |calls| && forall k :: 0 <= k < |calls| ==> r[k] == Applied(calls[k].path, calls[k].hash, env)
    decreases |calls|
  {
    if calls != [] {
      assert forall k :: 0 <= k < |calls[1..]| ==> calls[1..][k] == calls[k + 1];
      AppliesAll(calls[1..], oldRef, applyFault, env);
      var r := Applies(calls, oldRef, applyFault, env);
      assert r == [Applied(calls[0].path, calls[0].hash, env)] + Applies(calls[1..], oldRef, applyFault, env);
    }
  }

  /** What one iteration of the repository loop reads. */
  datatype Context = Context(
    cfg: Config,
    sig: Signal,
    remotes: map<string, Git.Repo>,
    io: (string, Git.IoStep) -> Option<string>,
    applyFault: string -> Option<string>,
    env: map<string, string>)

  datatype Step = Step(res: Resolution, fetched: Git.Fetched, applied: seq<Applied>)

  function StepFor(repo: Repository, ctx: Context, stored: Option<string>): Step {
    var res := Resolve(repo, ctx.sig, stored, ctx.cfg.defaultBranch);
    var f := Git.Fetch(ctx.remotes, repo.uri, res.refName, ctx.cfg.baseDir, ctx.cfg.kubeFolder, ctx.io,
                       Callback(res.oldRef, ctx.applyFault));
    Step(res, f, Applies(f.calls, res.oldRef, ctx.applyFault, ctx.env))
  }

  /** A fetch that lands on the previous commit applies nothing; one that
      lands on another commit applies every manifest it checked out, in
      walk order, tagged with that commit. */
  lemma StepApplies(repo: Repository, ctx: Context, stored: Option<string>)
    ensures var s := StepFor(repo, ctx, stored);
      s.fetched.result.Ok? && s.fetched.result.value == s.res.oldRef ==> s.applied == []
    ensures var s := StepFor(repo, ctx, stored);
      s.fetched.result.Ok? && s.fetched.result.value != s.res.oldRef ==>
        && |s.applied| == |s.fetched.calls|
        && forall k :: 0 <= k < |s.applied| ==>
             s.applied[k] == Applied(s.fetched.calls[k].path, s.fetched.result.value, ctx.env)
  {
    var s := StepFor(repo, ctx, stored);
    var cb := Callback(s.res.oldRef, ctx.applyFault);
    var f := s.fetched;
    if f.result.Ok? {
      forall k | 0 <= k < |f.calls|
        ensures f.calls[k].hash == f.result.value
        ensures cb(f.calls[k].path, f.calls[k].hash).None?
      {
        Git.FetchCalls(ctx.remotes, repo.uri, s.res.refName, ctx.cfg.baseDir, ctx.cfg.kubeFolder, ctx.io, cb, k);
        Git.FetchAccepted(ctx.remotes, repo.uri, s.res.refName, ctx.cfg.baseDir, ctx.cfg.kubeFolder, ctx.io, cb, k);
      }
      if f.result.value == s.res.oldRef {
        AppliesNone(f.calls, s.res.oldRef, ctx.applyFault, ctx.env);
      } else {
        AppliesAll(f.calls, s.res.oldRef, ctx.applyFault, ctx.env);
      }
    }
  }

  /** Without the update signal, a ref that is not under "refs/" is both
      the ref fetched and the previous commit, so nothing is applied,
      whether or not the fetch succeeds: a pinned commit, and a commit
      remembered by the store, are never re-applied. */
  lemma UnsignalledHashAppliesNothing(repo: Repository, ctx: Context, stored: Option<string>)
    requires !Overrides(repo, ctx.sig)
    requires !HasPrefix(StepFor(repo, ctx, stored).res.refName, "refs/")
    ensures StepFor(repo, ctx, stored).applied == []
  {
    var s := StepFor(repo, ctx, stored);
    var cb := Callback(s.res.oldRef, ctx.applyFault);
    assert HasPrefix(BranchPrefix + ctx.cfg.defaultBranch, "refs/");
    assert s.res.refName == s.res.oldRef;
    forall k | 0 <= k < |s.fetched.calls|
      ensures s.fetched.calls[k].hash == s.res.oldRef
    {
      Git.FetchCalls(ctx.remotes, repo.uri, s.res.refName, ctx.cfg.baseDir, ctx.cfg.kubeFolder, ctx.io, cb, k);
      Git.ResolveCommitSpec(ctx.remotes[repo.uri], s.res.refName);
    }
    AppliesNone(s.fetched.calls, s.res.oldRef, ctx.applyFault, ctx.env);
  }

  /** The key of a repository in the state store. */
  function KeyOf(repo: Repository, ctx: Context): string {
    State.StateKey(ctx.cfg.namespace, repo.uri)
  }

  /** The store's answer, None without a store. */
  function Lookup(store: Option<map<string, string>>, key: string): Option<string> {
    if store.None? then None else Some(if key in store.value then store.value[key] else "")
  }

  /** The state of the pass: the store (None without one), the applies so
      far, the artifact entries and the error that ended the pass. */
  datatype Pass = Pass(store: Option<map<string, string>>, applied: seq<Applied>, artifact: seq<Repository>, err: Option<string>)

  /** One turn of the repository loop: a failing fetch ends the pass with
      its error; a successful one records the commit in the store and the
      artifact. */
  function Advance(p: Pass, repo: Repository, ctx: Context): (q: Pass)
    requires p.err.None?
    ensures var s := StepFor(repo, ctx, Lookup(p.store, KeyOf(repo, ctx)));
      && (q.err.None? <==> s.fetched.result.Ok?)
      && (q.err.Some? ==> q.err == Some(s.fetched.result.error) && q.store == p.store)
      && q.applied == p.applied + s.applied
    ensures q.err.Some? ==> q.artifact == p.artifact
    ensures q.err.None? ==> |q.artifact| == |p.artifact| + 1 && q.artifact[..|p.artifact|] == p.artifact
    ensures var s := StepFor(repo, ctx, Lookup(p.store, KeyOf(repo, ctx)));
      q.err.None? ==> q.artifact[|p.artifact|].commit == s.fetched.result.value
    ensures q.err.None? ==> q.artifact[|p.artifact|].name == repo.name && q.artifact[|p.artifact|].uri == repo.uri
    ensures q.store.None? <==> p.store.None?
    ensures q.err.None? && q.store.Some? ==>
      q.store.value == p.store.value[KeyOf(repo, ctx) := q.artifact[|p.artifact|].commit]
  {
    var key := KeyOf(repo, ctx);
    var s := StepFor(repo, ctx, Lookup(p.store, key));
    match s.fetched.result
    case Err(e) => Pass(p.store, p.applied + s.applied, p.artifact, Some(e))
    case Ok(h) =>
      var store := if p.store.None? then None else Some(p.store.value[key := h]);
      Pass(store, p.applied + s.applied, p.artifact + [Repository(repo.name, repo.uri, h)], None)
  }

  /** The repository loop from a given state on: a failing fetch ends it. */
  function PassFrom(p: Pass, repos: seq<Repository>, ctx: Context): Pass
    requires p.err.None?
    decreases |repos|
  {
    if repos == [] then p
    else
      var q := Advance(p, repos[0], ctx);
      if q.err.Some? then q else PassFrom(q, repos[1..], ctx)
  }

  /** The loop from position `i` on, one repository unrolled. */
  lemma PassFromAt(p: Pass, repos: seq<Repository>, i: nat, ctx: Context)
    requires p.err.None? && i < |repos|
    ensures var q := Advance(p, repos[i], ctx);
      PassFrom(p, repos[i..], ctx) == if q.err.Some? then q else PassFrom(q, repos[i + 1..], ctx)
  {
    assert repos[i..][0] == repos[i];
    assert repos[i..][1..] == repos[i + 1..];
  }

  /** Each artifact entry carries the name and uri of the repository at
      the same position. */
  predicate Tracks(artifact: seq<Repository>, repos: seq<Repository>) {
    |artifact| <= |repos| &&
    forall k :: 0 <= k < |artifact| ==> artifact[k].name == repos[k].name && artifact[k].uri == repos[k].uri
  }

  lemma TracksCons(artifact: seq<Repository>, repos: seq<Repository>)
    requires artifact != [] && repos != []
    requires artifact[0].name == repos[0].name && artifact[0].uri == repos[0].uri
    requires Tracks(artifact[1..], repos[1..])
    ensures Tracks(artifact, repos)
  {
    forall k | 0 < k < |artifact|
      ensures artifact[k].name == repos[k].name && artifact[k].uri == repos[k].uri
    {
      assert artifact[k] == artifact[1..][k - 1] && repos[k] == repos[1..][k - 1];
    }
  }

  /** The pass only appends to the artifact, one entry per repository it
      gets through; it ends without error exactly when it got through all
      of them; whether there is a store does not change. */
  lemma {:induction false} PassExtends(p: Pass, repos: seq<Repository>, ctx: Context)
    requires p.err.None?
    ensures var q := PassFrom(p, repos, ctx);
      && |p.artifact| <= |q.artifact| <= |p.artifact| + |repos|
      && q.artifact[..|p.artifact|] == p.artifact
      && (q.err.None? <==> |q.artifact| == |p.artifact| + |repos|)
      && (q.store.None? <==> p.store.None?)
    decreases |repos|
  {
    if repos != [] {
      var q1 := Advance(p, repos[0], ctx);
      if q1.err.None? {
        PassExtends(q1, repos[1..], ctx);
        var q := PassFrom(q1, repos[1..], ctx);
        assert PassFrom(p, repos, ctx) == q;
        PrefixOfPrefix(q.artifact, |p.artifact|, |q1.artifact|);
      }
    }
  }

  lemma PrefixOfPrefix(s: seq<Repository>, m: nat, n: nat)
    requires m <= n <= |s|
    ensures s[..n][..m] == s[..m]
  {
  }

  lemma SplitAt(s: seq<Repository>, n: nat)
    requires n < |s|
    ensures s[n..][0] == s[..n + 1][n] && s[n..][1..] == s[n + 1..]
  {
  }

  lemma DistinctTail(repos: seq<Repository>)
    requires repos != []
    requires forall i, j :: 0 <= i < j < |repos| ==> repos[i].uri != repos[j].uri
    ensures forall i, j :: 0 <= i < j < |repos[1..]| ==> repos[1..][i].uri != repos[1..][j].uri
  {
    forall i, j | 0 <= i < j < |repos[1..]| ensures repos[1..][i].uri != repos[1..][j].uri {
      assert repos[1..][i] == repos[i + 1] && repos[1..][j] == repos[j + 1];
    }
  }

  /** The artifact lists the repositories the pass got through in
      configuration order, each with its name and uri. */
  lemma {:induction false} PassArtifact(p: Pass, repos: seq<Repository>, ctx: Context)
    requires p.err.None?
    ensures var q := PassFrom(p, repos, ctx);
      |p.artifact| <= |q.artifact| && Tracks(q.artifact[|p.artifact|..], repos)
    decreases |repos|
  {
    var n := |p.artifact|;
    PassExtends(p, repos, ctx);
    if repos == [] {
      assert p.artifact[n..] == [];
    } else {
      var q1 := Advance(p, repos[0], ctx);
      if q1.err.None? {
        PassArtifact(q1, repos[1..], ctx);
        PassExtends(q1, repos[1..], ctx);
        var q := PassFrom(q1, repos[1..], ctx);
        assert PassFrom(p, repos, ctx) == q;
        SplitAt(q.artifact, n);
        TracksCons(q.artifact[n..], repos);
      } else {
        assert q1.artifact[n..] == [];
      }
    }
  }

  /** The store holds, under each repository's key, the commit the
      artifact records for it. */
  predicate Recorded(store: map<string, string>, artifact: seq<Repository>, repos: seq<Repository>, ctx: Context) {
    |artifact| <= |repos| &&
    forall k :: 0 <= k < |artifact| ==>
      KeyOf(repos[k], ctx) in store && store[KeyOf(repos[k], ctx)] == artifact[k].commit
  }

  lemma RecordedCons(store: map<string, string>, artifact: seq<Repository>, repos: seq<Repository>, ctx: Context)
    requires artifact != [] && repos != []
    requires KeyOf(repos[0], ctx) in store && store[KeyOf(repos[0], ctx)] == artifact[0].commit
    requires Recorded(store, artifact[1..], repos[1..], ctx)
    ensures Recorded(store, artifact, repos, ctx)
  {
    forall k | 0 < k < |artifact|
      ensures KeyOf(repos[k], ctx) in store && store[KeyOf(repos[k], ctx)] == artifact[k].commit
    {
      assert repos[k] == repos[1..][k - 1] && artifact[k] == artifact[1..][k - 1];
    }
  }

  /** Distinct uris give distinct keys. */
  lemma OtherKeys(repos: seq<Repository>, ctx: Context)
    requires repos != []
    requires forall i, j :: 0 <= i < j < |repos| ==> repos[i].uri != repos[j].uri
    ensures forall i :: 0 <= i < |repos[1..]| ==> KeyOf(repos[1..][i], ctx) != KeyOf(repos[0], ctx)
  {
    forall i | 0 <= i < |repos[1..]|
      ensures KeyOf(repos[1..][i], ctx) != KeyOf(repos[0], ctx)
    {
      var pre := |State.NamespacePrefix(ctx.cfg.namespace)|;
      assert KeyOf(repos[1..][i], ctx)[pre..] == repos[i + 1].uri;
      assert KeyOf(repos[0], ctx)[pre..] == repos[0].uri;
    }
  }

  /** With a store and distinct repository uris, the store ends up holding,
      for every repository the pass got through, the commit the artifact
      records for it. */
  lemma {:induction false} PassStore(p: Pass, repos: seq<Repository>, ctx: Context)
    requires p.err.None? && p.store.Some?
    requires forall i, j :: 0 <= i < j < |repos| ==> repos[i].uri != repos[j].uri
    ensures var q := PassFrom(p, repos, ctx);
      q.store.Some? && |p.artifact| <= |q.artifact| && Recorded(q.store.value, q.artifact[|p.artifact|..], repos, ctx)
    decreases |repos|
  {
    var n := |p.artifact|;
    PassExtends(p, repos, ctx);
    if repos == [] {
      assert p.artifact[n..] == [];
    } else {
      var q1 := Advance(p, repos[0], ctx);
      if q1.err.None? {
        var rest := repos[1..];
        DistinctTail(repos);
        PassStore(q1, rest, ctx);
        PassExtends(q1, rest, ctx);
        var q := PassFrom(q1, rest, ctx);
        var key := KeyOf(repos[0], ctx);
        OtherKeys(repos, ctx);
        KeyStoredUntouched(q1, rest, ctx, key);
        assert PassFrom(p, repos, ctx) == q;
        SplitAt(q.artifact, n);
        RecordedCons(q.store.value, q.artifact[n..], repos, ctx);
      } else {
        assert q1.artifact[n..] == [];
      }
    }
  }

  /** A key no remaining repository maps to keeps its stored commit. */
  lemma {:induction false} KeyStoredUntouched(p: Pass, repos: seq<Repository>, ctx: Context, key: string)
    requires p.err.None? && p.store.Some? && key in p.store.value
    requires forall i :: 0 <= i < |repos| ==> KeyOf(repos[i], ctx) != key
    ensures var q := PassFrom(p, repos, ctx);
      q.store.Some? && key in q.store.value && q.store.value[key] == p.store.value[key]
    decreases |repos|
  {
    if repos != [] {
      var q1 := Advance(p, repos[0], ctx);
      if q1.err.None? {
        assert forall i :: 0 <= i < |repos[1..]| ==> repos[1..][i] == repos[i + 1];
        KeyStoredUntouched(q1, repos[1..], ctx, key);
      }
    }
  }

  /** The reference a repository is fetched at, and the commit the apply
      callback compares against: the signal's ref when the signal names
      this repository, else the pinned commit, else the stored one (read
      from the store only when nothing is pinned), else the default branch. */
  method ChooseRef(repo: Repository, ctx: Context, state: State.RedisState?, statePath: string)
    returns (oldRef: string, refName: string)
    requires state != null ==> state.server.up
    ensures Resolution(oldRef, refName)
      == Resolve(repo, ctx.sig, if state == null then None else Lookup(Some(state.server.data), statePath),
                 ctx.cfg.defaultBranch)
  {
    oldRef := repo.commit;
    if repo.name != "" && repo.name == ctx.sig.repo && ctx.sig.ref != "" {
      refName := ctx.sig.ref;
    } else {
      if oldRef == "" {
        if state != null {
          var getErr;
          oldRef, getErr := state.Get(statePath);
        }
      }
      if oldRef != "" {
        refName := oldRef;
      } else {
        refName := BranchPrefix + ctx.cfg.defaultBranch;
      }
    }
  }

  /** One repository: resolve, fetch with the apply callback, record. */
  method DeployRepo(repo: Repository, ctx: Context, state: State.RedisState?, cluster: Cluster, ghost p: Pass)
    returns (err: Option<string>, entry: Repository)
    requires state != null ==> state.server.up
    requires cluster.applyFault == ctx.applyFault
    requires p.err.None? && p.store == (if state == null then None else Some(state.server.data))
    requires p.applied == cluster.applied
    modifies cluster, if state != null then {state.server} else {}
    ensures state != null ==> state.server.up
    ensures cluster.namespaces == old(cluster.namespaces)
    ensures var q := Advance(p, repo, ctx);
      && cluster.applied == q.applied
      && err == q.err
      && (err.None? ==> q.artifact == p.artifact + [entry])
      && q.store == (if state == null then None else Some(state.server.data))
  {
    var statePath := State.StateKey(ctx.cfg.namespace, repo.uri);
    var oldRef, refName := ChooseRef(repo, ctx, state, statePath);
    var f := Git.CloneFiles(ctx.remotes, repo.uri, refName, ctx.cfg.baseDir, ctx.cfg.kubeFolder, ctx.io,
                            Callback(oldRef, cluster.applyFault));
    cluster.Record(Applies(f.calls, oldRef, cluster.applyFault, ctx.env));
    if f.result.Err? {
      return Some(f.result.error), repo;
    }
    var ref := f.result.value;
    if state != null {
      var _ := state.Set(statePath, ref);
    }
    return None, Repository(repo.name, repo.uri, ref);
  }

  /** One turn of the repository loop, with what is left of the pass. */
  method DeployNext(repos: seq<Repository>, i: nat, ctx: Context, state: State.RedisState?, cluster: Cluster,
                    ghost p: Pass, ghost target: Pass)
    returns (err: Option<string>, entry: Repository, ghost q: Pass)
    requires i < |repos|
    requires state != null ==> state.server.up
    requires cluster.applyFault == ctx.applyFault
    requires p.err.None? && p.store == (if state == null then None else Some(state.server.data))
    requires p.applied == cluster.applied
    requires PassFrom(p, repos[i..], ctx) == target
    modifies cluster, if state != null then {state.server} else {}
    ensures state != null ==> state.server.up
    ensures cluster.namespaces == old(cluster.namespaces)
    ensures cluster.applied == q.applied && err == q.err
    ensures q.store == (if state == null then None else Some(state.server.data))
    ensures err.Some? ==> q == target && q.artifact == p.artifact
    ensures err.None? ==> q.artifact == p.artifact + [entry] && PassFrom(q, repos[i + 1..], ctx) == target
  {
    err, entry := DeployRepo(repos[i], ctx, state, cluster, p);
    PassFromAt(p, repos, i, ctx);
    q := Advance(p, repos[i], ctx);
  }

  /** The repository loop of main.go. */
  method Reconcile(ctx: Context, state: State.RedisState?, cluster: Cluster)
    returns (err: Option<string>, artifact: seq<Repository>)
    requires state != null ==> state.server.up
    requires cluster.applyFault == ctx.applyFault
    modifies cluster, if state != null then {state.server} else {}
    ensures state != null ==> state.server.up
    ensures cluster.namespaces == old(cluster.namespaces)
    ensures var p := PassFrom(Pass(if state == null then None else Some(old(state.server.data)), old(cluster.applied), [], None),
                              ctx.cfg.repositories, ctx);
      && cluster.applied == p.applied
      && err == p.err && artifact == p.artifact
      && p.store == (if state == null then None else Some(state.server.data))
  {
    var repos := ctx.cfg.repositories;
    ghost var p := Pass(if state == null then None else Some(state.server.data), cluster.applied, [], None);
    ghost var target := PassFrom(p, repos, ctx);
    artifact := [];
    var i := 0;
    assert repos[0..] == repos;
    while i < |repos|
      invariant 0 <= i <= |repos|
      invariant state != null ==> state.server.up
      invariant p.err.None? && p.store == (if state == null then None else Some(state.server.data))
      invariant p.applied == cluster.applied && p.artifact == artifact
      invariant cluster.namespaces == old(cluster.namespaces)
      invariant PassFrom(p, repos[i..], ctx) == target
    {
      var e, entry;
      e, entry, p := DeployNext(repos, i, ctx, state, cluster, p, target);
      if e.Some? {
        return e, artifact;
      }
      artifact := artifact + [entry];
      i := i + 1;
    }
    err := None;
  }

  /** The outcome of a run: the error that ended it (log.Fatal) and the
      artifact to write, when one was asked for. */
  datatype Exit = Exit(fatal: Option<string>, artifact: Option<Config>)

  /** Applies every file of the local manifest folder, in listing order,
      with an empty tag; the first failure ends the run. */
  method ApplyLocalFolder(kubeFolder: string, files: seq<string>, env: map<string, string>, cluster: Cluster)
    returns (err: Option<string>)
    modifies cluster
    ensures cluster.namespaces == old(cluster.namespaces)
    ensures err.None? <==> forall i :: 0 <= i < |files| ==> cluster.applyFault(kubeFolder + "/" + files[i]).None?
    ensures err.None? ==> cluster.applied == old(cluster.applied) + LocalApplies(kubeFolder, files, env)
    ensures err.Some? ==> exists n :: (0 <= n < |files|
      && (forall j :: 0 <= j < n ==> cluster.applyFault(kubeFolder + "/" + files[j]).None?)
      && cluster.applied == old(cluster.applied) + LocalApplies(kubeFolder, files[..n], env)
      && err == cluster.applyFault(kubeFolder + "/" + files[n]))
  {
    for i := 0 to |files|
      invariant cluster.namespaces == old(cluster.namespaces)
      invariant forall j :: 0 <= j < i ==> cluster.applyFault(kubeFolder + "/" + files[j]).None?
      invariant cluster.applied == old(cluster.applied) + LocalApplies(kubeFolder, files[..i], env)
    {
      err := cluster.Apply(kubeFolder + "/" + files[i], "", env);
      if err.Some? {
        return;
      }
      assert files[..i + 1][..i] == files[..i];
    }
    assert files[..|files|] == files;
    return None;
  }

  function LocalApplies(kubeFolder: string, files: seq<string>, env: map<string, string>): (r: seq<Applied>)
    ensures |r| == |files|
    ensures forall i :: 0 <= i < |files| ==> r[i] == Applied(kubeFolder + "/" + files[i], "", env)
  {
    if files == [] then []
    else LocalApplies(kubeFolder, files[..|files| - 1], env) + [Applied(kubeFolder + "/" + files[|files| - 1], "", env)]
  }

  /** Clear-state mode: drop every stored commit of one namespace. */
  method ClearStateMode(namespace: string, server: State.RedisServer) returns (fatal: Option<string>)
    modifies server
    ensures server.up == old(server.up)
    ensures fatal.None? <==> old(server.up)
    ensures server.data == if old(server.up) then State.Cleared(old(server.data), namespace) else old(server.data)
  {
    var st, err := State.NewRedisState(server);
    if err.Some? {
      return err;
    }
    fatal := st.Clear(namespace);
  }

  /** Fills in the defaults of the configuration and applies the namespace flag. */
  method ApplyDefaults(c: Config, namespaceFlag: string) returns (cfg: Config)
    ensures cfg == Defaults(c, namespaceFlag)
  {
    cfg := c;
    if cfg.namespace == NoValue || cfg.namespace == "" {
      cfg := cfg.(namespace := DefaultNamespace);
    }
    if namespaceFlag != "" {
      cfg := cfg.(namespace := namespaceFlag);
    }
    if cfg.defaultBranch == NoValue || cfg.defaultBranch == "" {
      cfg := cfg.(defaultBranch := DefaultBranch);
    }
    if cfg.kubeFolder == NoValue || cfg.kubeFolder == "" {
      cfg := cfg.(kubeFolder := DefaultKubeFolder);
    }
    if cfg.baseDir == NoValue || cfg.baseDir == "" {
      cfg := cfg.(baseDir := DefaultBaseDir);
    }
  }

  /** The context the repository loop runs in, once the configuration is
      defaulted: the manifest folder loses a trailing '/', the signal is
      read from the variables the configuration names, and NAMESPACE is
      added to the environment. */
  function LoopContext(cfg: Config, getenv: string -> string, remotes: map<string, Git.Repo>,
                       io: (string, Git.IoStep) -> Option<string>, applyFault: string -> Option<string>,
                       env: map<string, string>): Context {
    Context(cfg.(kubeFolder := TrimSuffix(cfg.kubeFolder, "/")),
            Signal(getenv(cfg.updateRepoVar), getenv(cfg.updateRefVar)),
            remotes, io, applyFault, env["NAMESPACE" := cfg.namespace])
  }

  /** Connects to the store when an address is given and makes sure the
      namespace exists. */
  method Connect(redis: string, namespace: string, server: State.RedisServer, cluster: Cluster)
    returns (fatal: Option<string>, state: State.RedisState?)
    modifies cluster
    ensures cluster.applied == old(cluster.applied)
    ensures fatal.None? ==> namespace in cluster.namespaces
    ensures fatal.None? <==> (redis == "" || server.up) && (namespace in old(cluster.namespaces) || cluster.createFault.None?)
    ensures fatal.Some? ==> cluster.namespaces == old(cluster.namespaces)
    ensures fatal.None? ==> (state != null <==> redis != "")
    ensures state != null ==> state.server == server && server.up
    ensures redis != "" && !server.up ==> fatal.Some?
  {
    state := null;
    if redis != "" {
      state, fatal := State.NewRedisState(server);
      if fatal.Some? {
        return;
      }
    }
    if !cluster.NamespaceExists(namespace) {
      fatal := cluster.CreateNamespace(namespace);
      if fatal.Some? {
        return;
      }
    }
    fatal := None;
  }

  /** The artifact's first entry when the working directory is a git
      checkout: `local` is None outside a checkout, the checkout's
      directory name, origin URL and HEAD commit inside one, and an error
      when reading the checkout fails. */
  function LocalEntry(local: Option<Repository>): seq<Repository> {
    if local.None? then [] else [local.value]
  }

  /** The outcome of everything after the configuration is defaulted, in
      terms of what there was before: the store's answer `up`, its data
      `data0`, the cluster's namespaces `ns0` and applies `applied0`, and
      how creating a namespace and applying a file fail. A failure to
      connect to the store or to create the namespace, a malformed
      environment, an unreadable checkout or an unreadable local folder is
      fatal and changes nothing; the first local file that fails to apply
      is fatal after the files before it are applied; otherwise the
      repository pass runs, and its applies, its store and its error are
      the run's, with the artifact written only when the pass succeeds. */
  ghost predicate DeployOutcome(flags: Flags, cfg: Config, environ: seq<string>, getenv: string -> string,
                                local: Result<Option<Repository>>, localFolder: Result<seq<string>>,
                                remotes: map<string, Git.Repo>, io: (string, Git.IoStep) -> Option<string>,
                                createFault: Option<string>, applyFault: string -> Option<string>,
                                up: bool, data0: map<string, string>, ns0: set<string>, applied0: seq<Applied>,
                                exit: Exit, data: map<string, string>, applied: seq<Applied>)
  {
    if !((flags.redis == "" || up) && (cfg.namespace in ns0 || createFault.None?))
       || !Env.WellFormed(environ) || local.Err? || localFolder.Err? then
      exit.fatal.Some? && exit.artifact.None? && data == data0 && applied == applied0
    else
      var ctx := LoopContext(cfg, getenv, remotes, io, applyFault, Env.EnvMap(environ));
      LocalAndPassOutcome(flags, cfg, local.value, localFolder.value, ctx, data0, applied0, exit, data, applied)
  }

  /** The outcome once the run is connected and its inputs are read: the
      first local file that fails to apply is fatal after the files before
      it are applied; otherwise the repository pass runs, and its applies,
      its store and its error are the run's, with the artifact written
      only when the pass succeeds. */
  ghost predicate LocalAndPassOutcome(flags: Flags, cfg: Config, local: Option<Repository>, files: seq<string>,
                                      ctx: Context, data0: map<string, string>, applied0: seq<Applied>,
                                      exit: Exit, data: map<string, string>, applied: seq<Applied>)
  {
    if exists n :: 0 <= n < |files| && ctx.applyFault(ctx.cfg.kubeFolder + "/" + files[n]).Some? then
      && exit.artifact.None? && data == data0
      && exists n :: (0 <= n < |files|
           && (forall j :: 0 <= j < n ==> ctx.applyFault(ctx.cfg.kubeFolder + "/" + files[j]).None?)
           && exit.fatal == ctx.applyFault(ctx.cfg.kubeFolder + "/" + files[n])
           && applied == applied0 + LocalApplies(ctx.cfg.kubeFolder, files[..n], ctx.env))
    else
      var p := PassFrom(Pass(if flags.redis == "" then None else Some(data0),
                             applied0 + LocalApplies(ctx.cfg.kubeFolder, files, ctx.env), [], None),
                        cfg.repositories, ctx);
      && applied == p.applied
      && exit.fatal == p.err
      && (if flags.redis == "" then data == data0 else p.store == Some(data))
      && exit.artifact == if p.err.Some? || flags.artifact == "" then None
                          else Some(Config("", LocalEntry(local) + p.artifact, "", cfg.kubeFolder, "", "", ""))
  }

  /** The local folder, then the repository loop, then the artifact. */
  method LocalAndPass(flags: Flags, cfg: Config, local: Option<Repository>, files: seq<string>, ctx: Context,
                      state: State.RedisState?, server: State.RedisServer, cluster: Cluster)
    returns (exit: Exit)
    requires state != null <==> flags.redis != ""
    requires state != null ==> state.server == server && server.up
    requires cluster.applyFault == ctx.applyFault && ctx.cfg.repositories == cfg.repositories
    modifies cluster, if state != null then {state.server} else {}
    ensures server.up == old(server.up)
    ensures cluster.namespaces == old(cluster.namespaces)
    ensures exit.fatal.Some? ==> exit.artifact.None?
    ensures LocalAndPassOutcome(flags, cfg, local, files, ctx, old(server.data), old(cluster.applied),
                                exit, server.data, cluster.applied)
  {
    var err := ApplyLocalFolder(ctx.cfg.kubeFolder, files, ctx.env, cluster);
    if err.Some? {
      return Exit(err, None);
    }
    var entries;
    err, entries := Reconcile(ctx, state, cluster);
    if err.Some? {
      return Exit(err, None);
    }
    var outConf := Config("", LocalEntry(local) + entries, "", cfg.kubeFolder, "", "", "");
    return Exit(None, if flags.artifact != "" then Some(outConf) else None);
  }

  /** Everything after the configuration is defaulted. */
  method Deploy(flags: Flags, cfg: Config, environ: seq<string>, getenv: string -> string,
                local: Result<Option<Repository>>, localFolder: Result<seq<string>>, remotes: map<string, Git.Repo>,
                io: (string, Git.IoStep) -> Option<string>, server: State.RedisServer, cluster: Cluster)
    returns (exit: Exit)
    modifies server, cluster
    ensures server.up == old(server.up)
    ensures flags.redis == "" || !old(server.up) ==> server.data == old(server.data)
    ensures flags.redis != "" && !old(server.up) ==> exit.fatal.Some?
    ensures exit.fatal.Some? ==> exit.artifact.None?
    ensures exit.fatal.None? ==> cfg.namespace in cluster.namespaces && Env.WellFormed(environ) && local.Ok? && localFolder.Ok?
    ensures DeployOutcome(flags, cfg, environ, getenv, local, localFolder, remotes, io,
                          cluster.createFault, cluster.applyFault, old(server.up), old(server.data),
                          old(cluster.namespaces), old(cluster.applied), exit, server.data, cluster.applied)
  {
    var fatal, state := Connect(flags.redis, cfg.namespace, server, cluster);
    if fatal.Some? {
      return Exit(fatal, None);
    }
    var envResult := Env.EnvToMap(environ);
    if envResult.Err? {
      return Exit(Some(envResult.error), None);
    }
    if local.Err? {
      return Exit(Some(local.error), None);
    }
    var ctx := LoopContext(cfg, getenv, remotes, io, cluster.applyFault, envResult.value);
    if localFolder.Err? {
      return Exit(Some(localFolder.error), None);
    }
    exit := LocalAndPass(flags, cfg, local.value, localFolder.value, ctx, state, server, cluster);
  }

  /** The whole run. */
  method Run(flags: Flags, parsed: Result<Config>, environ: seq<string>, getenv: string -> string,
              local: Result<Option<Repository>>, localFolder: Result<seq<string>>, remotes: map<string, Git.Repo>,
              io: (string, Git.IoStep) -> Option<string>, server: State.RedisServer, cluster: Cluster)
    returns (exit: Exit)
    modifies server, cluster
    ensures server.up == old(server.up)
    ensures flags.clearState && flags.namespace != "" && flags.redis != "" ==>
      && exit.artifact.None?
      && cluster.applied == old(cluster.applied) && cluster.namespaces == old(cluster.namespaces)
      && (exit.fatal.None? <==> old(server.up))
      && server.data == (if old(server.up) then State.Cleared(old(server.data), flags.namespace) else old(server.data))
    ensures (!(flags.clearState && flags.namespace != "" && flags.redis != "")
             && (flags.config == "" || parsed.Err? || !Env.WellFormed(environ))) ==>
      && exit.fatal.Some? && (flags.config == "" ==> exit.fatal == Some(ErrMissingConfig))
      && cluster.applied == old(cluster.applied) && cluster.namespaces == old(cluster.namespaces)
      && server.data == old(server.data)
    ensures flags.redis == "" ==> server.data == old(server.data)
    ensures exit.fatal.Some? ==> exit.artifact.None?
    ensures exit.fatal.None? && !(flags.clearState && flags.namespace != "" && flags.redis != "") ==>
      flags.config != "" && parsed.Ok? && Defaults(parsed.value, flags.namespace).namespace in cluster.namespaces
    ensures !(flags.clearState && flags.namespace != "" && flags.redis != "") && flags.config != "" && parsed.Ok? ==>
      DeployOutcome(flags, Defaults(parsed.value, flags.namespace), environ, getenv, local, localFolder, remotes, io,
                    cluster.createFault, cluster.applyFault, old(server.up), old(server.data),
                    old(cluster.namespaces), old(cluster.applied), exit, server.data, cluster.applied)
  {
    if flags.clearState && flags.namespace != "" && flags.redis != "" {
      var fatal := ClearStateMode(flags.namespace, server);
      return Exit(fatal, None);
    }
    if flags.config == "" {
      return Exit(Some(ErrMissingConfig), None);
    }
    if parsed.Err? {
      return Exit(Some(parsed.error), None);
    }
    // parseConfig renders the configuration template over envToMap().
    var templateEnv := Env.EnvToMap(environ);
    if templateEnv.Err? {
      return Exit(Some(templateEnv.error), None);
    }
    var cfg := ApplyDefaults(parsed.value, flags.namespace);
    DefaultsProps(parsed.value, flags.namespace);
    exit := Deploy(flags, cfg, environ, getenv, local, localFolder, remotes, io, server, cluster);
  }
}
