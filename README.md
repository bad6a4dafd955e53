# k8s-deployer, modelled in Dafny

k8s-deployer is a continuous-deployment reconciler for Kubernetes. One run
of it does the following:

- reads a configuration that lists git repositories, and fills in its
  defaults;
- makes sure the target namespace exists;
- applies the manifests of the local manifest folder;
- picks a ref for each repository:
  - the update signal's ref, when the signal names the repository;
  - otherwise the pinned commit;
  - otherwise the commit remembered in a Redis store;
  - otherwise the tip of the default branch;
- clones the repository and writes out the manifests of the resolved
  commit, applying each one only if the commit differs from the previous
  one;
- records the new commit in the store, and can write an artifact listing
  what was deployed.

A clear-state mode instead deletes everything the store remembers for one
namespace. The project also models the parts of the vendored go-git library
that the deployer's clone path relies on:

- option validation (`options.go`);
- the blob iterator (`blobs.go`);
- the encoder of the reference advertisement of git's smart protocol
  (`plumbing/format/packp/advrefs/encoder.go`).

The model has one module per source file:

| module | file | what it holds |
|---|---|---|
| `Deployer` | `main.go` | the whole run (`Run`) and its parts, plus the `Config` and `Repository` records of `config.go` |
| `Git` | `git.go` | `cloneFiles` |
| `State` | `state.go` | the Redis state store, as a `RedisServer` object (its data map and whether it answers) and a `RedisState` client class |
| `Env` | `env.go` | `envToMap`, as a method with a loop |
| `Options` | `options.go` | the three option records, as classes whose `Validate` fills defaults in place |
| `Blobs` | `blobs.go` | `Blob`, and `BlobIter` over an object iterator |
| `AdvRefs` | `encoder.go` | the encoder state machine, as a class writing to a packet stream |
| `GoStrings` | — | the pieces of Go's `strings` and `sort` packages that the code relies on |
| `Wrappers` | — | `Option` and `Result` |

Each imperative method is proved against a functional specification, and
the properties are proved about those specifications:

- `Reconcile` runs a loop that `PassFrom` describes.
- `CloneFiles` computes `Fetch`.
- `WalkFiles` computes `WalkFrom`.
- `EnvToMap` computes `EnvMap`.
- `BlobIter.ForEach` computes `ForEachSpec`.
- `Encoder.Encode` writes `Expected` through `WriteOut`, which stops at the first failing write attempt.

Two precedence rules of `main.go` are worth stating on their own:

- **A pinned commit beats the stored commit.** In `main.go:161-170` the
  store is only asked when the pinned commit is empty, so a repository
  with a pinned commit is fetched at that commit whatever the store holds
  (`ResolvePrecedence`).
- **The default branch is not followed once a commit is stored.** On a
  later run the code fetches the stored commit hash itself
  (`main.go:166-167`) rather than the branch. Without the update signal,
  such a hash is both the ref that is fetched and the previous commit, so
  the run applies nothing and never follows the default branch again.
  `UnsignalledHashAppliesNothing` proves this.

Other behaviours of the code that the model keeps:

- `envToMap` keeps only the text between the first and second `=` of an
  entry, so `A=b=c` yields `A -> b` (`TruncatedValue`).
- An entry without `=` makes the Go code panic. Here that panic is an
  error result.
- The manifest test in `git.go:106` is a plain string prefix, so
  `k8s-old/x` counts as a manifest of folder `k8s` (`PrefixIsPlain`).
- The test at `main.go:130` always holds after defaulting, so the local
  folder is always applied.

## Model

| member | source | states |
|---|---|---|
| GoStrings.TrimSuffix | git.go:45 | when `s` ends with the suffix, the result followed by the suffix is `s`; otherwise the result is `s` |
| GoStrings.IndexByteSpec | git.go:44 | the index is -1 exactly when the byte does not occur; otherwise it is the first position of the byte |
| GoStrings.JoinSplit | git.go:44 | joining the pieces of a Split with the separator gives back the string |
| GoStrings.SplitJoin | env.go:11 | splitting a join of separator-free parts gives back the parts |
| GoStrings.SplitPiecesFree | git.go:44 | no piece of a Split holds the separator |
| GoStrings.SplitHead | env.go:11 | the first piece is the longest separator-free prefix; a string without the separator is one piece; otherwise there are at least two pieces, and the rest are the Split of what follows the first separator |
| GoStrings.SplitCons | env.go:11 | a separator-free part, the separator, then any text, splits into that part followed by the Split of the text |
| GoStrings.LastPieceEnd | git.go:44-45 | `repoParts[len(repoParts)-1]` is a separator-free suffix, preceded by the separator unless it is the whole string |
| GoStrings.LastPieceUnique | git.go:44-45 | any separator-free suffix preceded by the separator (or the whole string) is that last piece |
| GoStrings.LtTransitive | vendor/gopkg.in/src-d/go-git.v4/plumbing/format/packp/advrefs/encoder.go:125 | the byte-wise string order is transitive |
| GoStrings.LtTrichotomy | vendor/gopkg.in/src-d/go-git.v4/plumbing/format/packp/advrefs/encoder.go:125 | any two strings are equal or ordered one way |
| GoStrings.SortStrings | vendor/gopkg.in/src-d/go-git.v4/plumbing/format/packp/advrefs/encoder.go:125 | `sort.Strings` yields a sorted permutation of its input |
| GoStrings.SortedUnique | vendor/gopkg.in/src-d/go-git.v4/plumbing/format/packp/advrefs/encoder.go:147 | two sorted permutations of each other are equal, so the sort depends only on the multiset of its input |
| Env.EntryKey | env.go:11-12 | `vp[0]` holds no `=`, and the entry starts with it followed by `=` |
| Env.EntryValue | env.go:11-12 | `vp[1]` holds no `=`, follows the key and the first `=`, and ends at the end of the entry or at a second `=` |
| Env.EnvToMap | env.go:8-16 | succeeds exactly when every entry holds `=` (otherwise the index panics), and then returns `EnvMap` |
| Env.EnvMapKeys | env.go:10-13 | the map's keys are exactly the keys of the entries |
| Env.EnvMapLastWins | env.go:10-13 | a key's value comes from the last entry that has that key |
| Env.TruncatedValue | env.go:11-12 | the entry `A=b=c` yields the map `A -> b` |
| State.StateKey | main.go:151 | the key is the namespace's prefix `k8s-deployer/<ns>/` followed by the repository URI |
| State.OtherNamespaceOutside | state.go:48 | for namespaces without `/`, another namespace's key never matches a namespace's KEYS pattern |
| State.StateKeyInjective | main.go:151 | for namespaces without `/`, a key determines its namespace and URI |
| State.ClearRemovesNamespace | state.go:47-60 | after a clear, no key of the namespace is left |
| State.ClearKeepsOthers | state.go:47-60 | a clear keeps every key of any other namespace without `/`, with its value |
| State.NewRedisState | state.go:20-35 | a client is returned exactly when the server answers the ping; otherwise an error |
| State.RedisState.Get | state.go:42-45 | the stored value with no error; for a missing key or an unreachable server, "" with an error |
| State.RedisState.Set | state.go:37-40 | stores the value under the key when the server answers; otherwise an error and nothing changes |
| State.RedisState.Del | state.go:56 | removes the key when the server answers |
| State.RedisState.Clear | state.go:47-60 | the new data is the old data minus every key matching the namespace pattern; it fails, changing nothing, only when the keys cannot be listed |
| Git.RepoNameSpec | git.go:44-45 | the clone name holds no `/`; the URI's last segment is that name, or that name followed by `.git` |
| Git.RepoPathSpec | git.go:46 | the clone path is the base directory followed by the clone name |
| Git.RepoNameOfSegment | git.go:44-45 | `host/name` and `host/name.git` both give the clone name `name` |
| Git.FirstWithHashSpec | git.go:87-95 | no commit is found exactly when none has the hash; otherwise the first commit with the hash is found |
| Git.ScanCommits | git.go:87-95 | the scan finds a commit exactly when one has the hash, and then finds the first such commit |
| Git.ResolveCommitSpec | git.go:77-98 | a name under `refs/` resolves exactly when the ref exists and its hash is a commit of the store; any other name resolves exactly when some commit has it as hash, and otherwise fails with "Could not find commit"; the result is one of the repository's commits, with the hash asked for |
| Git.WalkFiles | git.go:105-145 | the file walk computes `WalkFrom`; it succeeds exactly when every manifest is accepted, making exactly the reference calls and writes; otherwise it has a first failing manifest, returns that manifest's error (the error of its first failing disk step, in the order create, read, chmod, copy, or else the callback's), and has made the calls and writes of the manifests before it plus what the failing visit did |
| Git.FirstFailureExists | git.go:105-145 | a walk in which some manifest fails has a first failing manifest |
| Git.WalkFromFirstError | git.go:111-136 | the walk stops at the first failing manifest: its error is that manifest's, and the calls and writes are those of the manifests before it, followed by a write and a call when the callback refused, or by nothing when a disk step failed |
| Git.WalkFromSpec | git.go:105-145 | the walk succeeds exactly when every manifest is written and accepted by the callback; it then makes exactly the reference calls and writes, and otherwise a prefix of them |
| Git.ManifestCallsShape | git.go:106-133 | every callback call passes the clone path joined with a manifest's name, and the commit's hash |
| Git.ManifestWritesShape | git.go:106-128 | every file written is a manifest of the tree, with its mode |
| Git.NoManifestsNoCalls | git.go:105-106 | a tree without manifests leads to no write and no call |
| Git.CloneFiles | git.go:43-148 | computes `Fetch`: a missing repository, an unresolved ref or a failed walk gives the error with the effects made so far; otherwise the commit's hash |
| Git.FetchOk | git.go:43-148 | cloneFiles succeeds exactly when the repository is reachable, the ref resolves and every manifest is accepted; it then returns the commit's hash and has made every reference call and write |
| Git.FetchPrefix | git.go:105-145 | whatever the outcome, the calls and writes made are a prefix of those of the resolved commit, and there are none when no commit was resolved |
| Git.FetchCalls | git.go:133 | each call passes a manifest path of the resolved commit and that commit's hash, which is also the hash a successful fetch returns |
| Git.FetchAccepted | git.go:133-136 | after a successful fetch, the callback accepted every call |
| Git.FetchWrites | git.go:105-131 | every file written is a manifest of the resolved commit, with the mode its tree entry records |
| Git.PrefixIsPlain | git.go:106 | `k8s-old/service.yaml` counts as under `k8s`, and `deploy/k8s/service.yaml` does not |
| Options.CloneOptions.Validate | vendor/gopkg.in/src-d/go-git.v4/options.go:38-52 | a missing URL fails with ErrMissingURL and changes nothing; otherwise the empty remote and reference names become `origin` and `HEAD`, other fields keep their values, and a second validation changes nothing |
| Options.PullOptions.Validate | vendor/gopkg.in/src-d/go-git.v4/options.go:67-77 | never fails; the same two defaults are filled in, and set values are kept |
| Options.FetchOptions.Validate | vendor/gopkg.in/src-d/go-git.v4/options.go:88-96 | fails with ErrInvalidRefSpec exactly when some refspec is invalid |
| Blobs.Blob.Decode | vendor/gopkg.in/src-d/go-git.v4/blobs.go:22-44 | a blob object sets the hash, size and object, after which `ID()` is the object's hash and `Type()` is BlobObject; any other type fails with ErrUnsupportedObject and leaves the blob as it was |
| Blobs.NextStop | vendor/gopkg.in/src-d/go-git.v4/blobs.go:84-98 | the position where Next stops is the first failure or blob from the current position on, or the end |
| Blobs.BlobIter.Next | vendor/gopkg.in/src-d/go-git.v4/blobs.go:84-98 | skips non-blob objects; returns the first blob, decoded, or the storage's error (io.EOF at the end) |
| Blobs.BlobIter.ForEach | vendor/gopkg.in/src-d/go-git.v4/blobs.go:103-116 | computes `ForEachSpec` over the entries still to come, and closes the iterator |
| Blobs.ForEachSeesBlobs | vendor/gopkg.in/src-d/go-git.v4/blobs.go:103-116 | the callback is given blobs only, in order: a prefix of the blobs before the first failure |
| Blobs.ForEachComplete | vendor/gopkg.in/src-d/go-git.v4/blobs.go:103-116 | when neither the storage nor the callback fails, every blob is visited and ForEach returns no error |
| Blobs.ForEachError | vendor/gopkg.in/src-d/go-git.v4/blobs.go:100-116 | the callback accepted every blob it saw but the last; when it refused the last, ForEach returns its error, or none for ErrStop; otherwise it saw every blob before the storage's first failure, and that failure is the error, or none for io.EOF and the end |
| AdvRefs.PrefixLines | vendor/gopkg.in/src-d/go-git.v4/plumbing/format/packp/advrefs/encoder.go:44-58 | the output opens with one packet per prefix entry, in order: a flush-pkt for the empty entry, the entry and a newline otherwise; the first line comes next |
| AdvRefs.ShallowLines | vendor/gopkg.in/src-d/go-git.v4/plumbing/format/packp/advrefs/encoder.go:131-155 | the output closes with one `shallow <hash>` line per shallow, in ascending order of the hashes, then a flush-pkt |
| AdvRefs.SortShallows | vendor/gopkg.in/src-d/go-git.v4/plumbing/format/packp/advrefs/encoder.go:142-150 | the shallows' hashes, sorted, as a permutation |
| AdvRefs.SortedKeys | vendor/gopkg.in/src-d/go-git.v4/plumbing/format/packp/advrefs/encoder.go:120-128 | the map's names, sorted, each a key of the map, as a permutation of the keys |
| AdvRefs.SortRefs | vendor/gopkg.in/src-d/go-git.v4/plumbing/format/packp/advrefs/encoder.go:120-128 | names collected in any iteration order, then sorted, give the same sorted key list |
| AdvRefs.RefNamesAscending | vendor/gopkg.in/src-d/go-git.v4/plumbing/format/packp/advrefs/encoder.go:100-128 | every reference is listed exactly once, in strictly ascending order of name |
| AdvRefs.RefsPktsSplit | vendor/gopkg.in/src-d/go-git.v4/plumbing/format/packp/advrefs/encoder.go:104-115 | a reference's peeled line comes right after its own line, between the groups of the names before and after it |
| AdvRefs.RefsPktsShape | vendor/gopkg.in/src-d/go-git.v4/plumbing/format/packp/advrefs/encoder.go:104-115 | every packet of the reference section is a listed reference's line, or the peeled line of a listed reference, right after that reference's line |
| AdvRefs.CapsOrderFree | vendor/gopkg.in/src-d/go-git.v4/plumbing/format/packp/advrefs/encoder.go:90-98 | the order in which capability names were added does not change the first line, since the names are sorted; each name's values keep the order they were added in |
| AdvRefs.ShallowsOrderFree | vendor/gopkg.in/src-d/go-git.v4/plumbing/format/packp/advrefs/encoder.go:142-150 | the order in which shallows are given does not change their lines |
| AdvRefs.NextStage | vendor/gopkg.in/src-d/go-git.v4/plumbing/format/packp/advrefs/encoder.go:57-154 | the states follow each other in order; the flush state is the last |
| AdvRefs.ExpectedLayout | vendor/gopkg.in/src-d/go-git.v4/plumbing/format/packp/advrefs/encoder.go:27-31 | the output is the prefix, the first line, the references in ascending order each followed by its peeled line, the sorted shallows, then a flush-pkt |
| AdvRefs.WriteOutFirstFault | vendor/gopkg.in/src-d/go-git.v4/plumbing/format/packp/advrefs/encoder.go:45-55 | writing packets from attempt `from` on succeeds exactly when none of those attempts fails, and then takes every packet; when attempt from + n is the first to fail, the stream takes the n packets before it, n + 1 attempts are made and that attempt's error is the outcome |
| AdvRefs.Encoder.WriteAll | vendor/gopkg.in/src-d/go-git.v4/plumbing/format/packp/advrefs/encoder.go:45-55 | writes the packets in order with `WriteOut`'s outcome: every packet when no attempt fails, otherwise the packets before the first failing attempt and no attempt after it; the encoder keeps that attempt's error |
| AdvRefs.Encoder.Step | vendor/gopkg.in/src-d/go-git.v4/plumbing/format/packp/advrefs/encoder.go:44-155 | one state writes its packets until a write fails, and moves to the next state, or to the end when a write failed |
| AdvRefs.Encoder.RunStages | vendor/gopkg.in/src-d/go-git.v4/plumbing/format/packp/advrefs/encoder.go:35-37 | running the states from the first to the end has the outcome of writing all their packets, concatenated, with `WriteOut`: the stream and the attempt count stop at the first failing write, and its error is the encoder's |
| AdvRefs.Encoder.Encode | vendor/gopkg.in/src-d/go-git.v4/plumbing/format/packp/advrefs/encoder.go:32-40 | when no write attempt fails, the whole expected output is sent and no error is returned; when attempt n is the first to fail, exactly the first n packets are sent, n + 1 writes were attempted (none after the failing one), and that attempt's error is returned |
| Deployer.DefaultsProps | main.go:57-78 | unset fields become "dev", "master", "k8s" and "/tmp/deployer/"; a namespace flag wins over the configured namespace; set values are kept, and defaulting twice changes nothing |
| Deployer.ApplyDefaults | main.go:57-78 | the step-by-step defaulting computes `Defaults` |
| Deployer.Resolve | main.go:158-171 | the ref fetched is the first non-empty one of: the signal's ref (when the signal names the repository), the pinned commit, the stored commit, the default branch's remote ref. The previous commit is the pinned one; when the signal does not decide and nothing is pinned, it is the stored one |
| Deployer.ResolvePrecedence | main.go:158-171 | the signal wins, then the pinned commit, then the stored commit, then the default branch; the store is irrelevant once the signal or a pin decides |
| Deployer.ChooseRef | main.go:151-171 | the chosen ref and previous commit are those of `Resolve`, with the store's answer for the repository's key |
| Deployer.Cluster.CreateNamespace | main.go:90-96 | the namespace is added unless creation fails; the apply log is kept |
| Deployer.Cluster.Apply | main.go:138 | a successful apply appends the file, tag and variables to the log; a failed one changes nothing |
| Deployer.Cluster.Record | main.go:175-185 | appends the applies made from within a fetch's callback |
| Deployer.AppliesNone | main.go:177-182 | the callback applies nothing when every call carries the previous commit |
| Deployer.AppliesAll | main.go:177-182 | when every call carries a new commit and is accepted, every call is applied, in order, tagged with its commit |
| Deployer.StepApplies | main.go:173-185 | a fetch landing on the previous commit applies nothing; one landing on another commit applies every manifest it checked out, in walk order, tagged with that commit |
| Deployer.UnsignalledHashAppliesNothing | main.go:158-185 | without the signal, a ref not under `refs/` is both fetched and compared against, so nothing is applied |
| Deployer.Advance | main.go:175-198 | one repository: the step fails exactly when its fetch fails, with the fetch's error, keeping the store and the artifact; the apply log grows by the step's applies either way; on success one entry with the repository's name, URI and the hash the fetch returned is appended, and that hash is stored under the repository's key |
| Deployer.PassExtends | main.go:150-199 | the pass only appends to the artifact, one entry per repository it gets through, and ends without error exactly when it gets through all of them |
| Deployer.PassArtifact | main.go:194-198 | the artifact lists the repositories the pass got through, in configuration order, with their names and URIs |
| Deployer.PassStore | main.go:190-193 | with a store and distinct URIs, the store holds, for each repository the pass got through, the commit the artifact records for it |
| Deployer.KeyStoredUntouched | main.go:190-193 | a key that no remaining repository maps to keeps its stored commit |
| Deployer.DeployRepo | main.go:151-198 | one iteration updates the cluster's apply log, the error, the artifact entry and the store as `Advance` says |
| Deployer.DeployNext | main.go:150-199 | one turn of the loop advances the pass and keeps what remains of it equal to the whole pass's outcome |
| Deployer.Reconcile | main.go:149-199 | the repository loop ends with the apply log, error, artifact and store of `PassFrom` over the configured repositories |
| Deployer.ApplyLocalFolder | main.go:129-143 | succeeds exactly when every file applies; it applies the files in listing order with an empty tag, and on failure stops at the first failing file |
| Deployer.LocalApplies | main.go:136-138 | one apply per listed file, of `<folder>/<name>`, with an empty tag |
| Deployer.ClearStateMode | main.go:35-46 | the run fails exactly when the store does not answer; otherwise every key of the namespace is deleted |
| Deployer.Connect | main.go:80-96 | connects to the store exactly when an address is given; it fails exactly when the store is asked for and does not answer, or the namespace is missing and cannot be created, and then leaves the namespaces as they were; on success the namespace exists |
| Deployer.LocalAndPass | main.go:129-208 | the first local file that fails to apply is fatal, after the files before it are applied; otherwise the pass runs, its applies, store and error are the run's, whether or not it fails, and the artifact lists the local checkout's entry and the pass's entries only when the pass succeeds |
| Deployer.Deploy | main.go:80-208 | a failed connection, a malformed environment, an unreadable checkout or an unreadable local folder is fatal and changes neither the store nor the apply log; otherwise the outcome is that of `LocalAndPass` |
| Deployer.Run | main.go:32-208 | clear-state mode only clears the namespace's keys; a missing config flag, an unparsable configuration or a malformed environment (which `parseConfig` already reads with `envToMap`, `config.go:34`) is fatal and touches nothing, not even the namespaces; otherwise the outcome is `Deploy`'s for the defaulted configuration, whose namespace exists on success |

## Left out

- Logging (`log.Println`, `fmt.Println`) is left out. `log.Fatal` becomes the `fatal` field of `Exit`.
- Command-line parsing is left out: the flags are a `Flags` value.
- `parseConfig` and its template rendering of the configuration file are left out: `Run` takes the parsed configuration or its error.
- Writing the artifact (`yaml.Marshal` and `ioutil.WriteFile` in `main.go:201-208`) is left out. The artifact is returned as a `Config` value. The code ignores the error of the write.
- `getLocalRef` and `getLocalRemote` (`git.go:15-41`), `os.Stat(".git")`, `os.Getwd` and `path.Base` (`main.go:108-127`) read the local checkout. They are left out. `Run` takes their outcome as a parameter, `local`, which holds an error, no checkout, or the checkout's entry.
- `os.Environ`, `os.Getenv` and `ioutil.ReadDir` are left out. The environment, a variable lookup function and the folder listing (or its error) are parameters.
- kubectl, whose code (`kubernetes.go`) is not part of this model, is a `Cluster` object. It keeps a set of namespaces and a log of applies, and its failures come from fault values.
  - Template rendering of manifests and temp files are not modelled.
  - `kubeApply` writes `TAG` into the shared environment map. That write is not modelled; the tag is recorded beside the map instead.
- In `cloneFiles`, the following are not modelled: removing and re-creating the clone directory, creating the filesystem repository, the SSH agent, and the network clone (`git.go:48-68`).
  - A remote is a value in a `remotes` map.
  - A URI missing from that map gives "repository not found". All other clone, commit-listing and tree-reading failures (`git.go:70-73`, `git.go:100-103`) are not modelled.
  - The four disk steps of a manifest can fail through an `io` fault function. File contents are not modelled.
  - The walk's `written` list holds only manifests whose four disk steps all succeeded. A manifest whose read, chmod or copy fails has already been created on disk by `os.Create` (`git.go:111`); that partly written file is not recorded.
- `Blob.Encode` and `Blob.Reader` (`blobs.go:47-66`) handle object content, which is not modelled. `NewBlobIter` becomes the `BlobIter` constructor, without the repository field. The underlying `storer.ObjectIter`, which is not part of this model, is a class over a fixed sequence of results.
- For the advertisement encoder, the following are not modelled:
  - the pkt-line length framing;
  - `Encodef`'s formatting, beyond the payload text;
  - the rendering of hashes, which are their hex strings.
- `packp.Capabilities` is not part of this model, and its rendering is assumed. It is a `Capabilities` value: the names in the order they were added, and each name's values. `FormatCaps` renders it as `Capabilities.Sort` and `Capabilities.String` are taken to do: the names sorted, each value as `name=value` (or the bare name for an empty value), a name without values as the bare name, and the entries joined by a space.
- The in-place sort of `formatCaps` (`encoder.go:95`) is not modelled: it reorders the caller's capability list, whereas the model leaves the advertised value unchanged and sorts a copy.
- Options.FetchOptions.Validate: whether a refspec is valid (`config.RefSpec.IsValid`) is a parameter.
- `CloneOptions.Auth`, an opaque credential that the validators never read, is left out. `SingleBranch` and `Depth` are kept as plain fields; Go's fixed-width integers are unbounded here.
- State.RedisState.Clear: the KEYS glob `k8s-deployer/<ns>/*` is modelled as a prefix test. Glob metacharacters inside a namespace are not modelled.
- A server that stops answering during a run is not modelled: the server either answers for the whole run or not at all.
- The error `state.Set` returns is ignored, as in the code. The error of `state.Get` is ignored too: a missing key reads as "".
- GoStrings.Lt compares characters where Go compares bytes. The two orders agree on valid UTF-8 text.
