/** options.go of go-git: validators that fill in defaults. The records
    keep SingleBranch and Depth, which the validators must leave as they
    are; CloneOptions.Auth, an opaque credential, is left out. */
module Options {
  import opened Wrappers

  const DefaultRemoteName := "origin"
  /** plumbing.HEAD */
  const Head := "HEAD"
  const ErrMissingURL := "URL field is required"
  const ErrInvalidRefSpec := "invalid refspec"

  class CloneOptions {
    var url: string
    var remoteName: string
    var referenceName: string
    var singleBranch: bool
    var depth: int

    constructor (url: string, remoteName: string, referenceName: string, singleBranch: bool, depth: int)
      ensures this.url == url && this.remoteName == remoteName && this.referenceName == referenceName
      ensures this.singleBranch == singleBranch && this.depth == depth
    {
      this.url := url;
      this.remoteName := remoteName;
      this.referenceName := referenceName;
      this.singleBranch := singleBranch;
      this.depth := depth;
    }

    /** Both defaulted fields hold a value. */
    predicate Defaulted()
      reads this
    {
      remoteName != "" && referenceName != ""
    }

    /** Fails on a missing URL without touching anything; otherwise fills the
        empty remote and reference names with their defaults. A second call
        changes nothing, since the first leaves the options Defaulted. */
    method Validate() returns (err: Option<string>)
      modifies this
      ensures url == old(url) && singleBranch == old(singleBranch) && depth == old(depth)
      ensures old(url) == "" ==> err == Some(ErrMissingURL)
      ensures old(url) == "" ==> remoteName == old(remoteName) && referenceName == old(referenceName)
      ensures old(url) != "" ==> err == None && Defaulted()
      ensures old(url) != "" ==> remoteName == (if old(remoteName) == "" then DefaultRemoteName else old(remoteName))
      ensures old(url) != "" ==> referenceName == (if old(referenceName) == "" then Head else old(referenceName))
      ensures old(Defaulted()) ==> remoteName == old(remoteName) && referenceName == old(referenceName)
    {
      if url == "" {
        return Some(ErrMissingURL);
      }
      if remoteName == "" {
        remoteName := DefaultRemoteName;
      }
      if referenceName == "" {
        referenceName := Head;
      }
      return None;
    }
  }

  class PullOptions {
    var remoteName: string
    var referenceName: string
    var singleBranch: bool
    var depth: int

    constructor (remoteName: string, referenceName: string, singleBranch: bool, depth: int)
      ensures this.remoteName == remoteName && this.referenceName == referenceName
      ensures this.singleBranch == singleBranch && this.depth == depth
    {
      this.remoteName := remoteName;
      this.referenceName := referenceName;
      this.singleBranch := singleBranch;
      this.depth := depth;
    }

    predicate Defaulted()
      reads this
    {
      remoteName != "" && referenceName != ""
    }

    /** Never fails; fills the same two defaults as a clone. */
    method Validate() returns (err: Option<string>)
      modifies this
      ensures err == None && Defaulted()
      ensures singleBranch == old(singleBranch) && depth == old(depth)
      ensures remoteName == (if old(remoteName) == "" then DefaultRemoteName else old(remoteName))
      ensures referenceName == (if old(referenceName) == "" then Head else old(referenceName))
      ensures old(Defaulted()) ==> remoteName == old(remoteName) && referenceName == old(referenceName)
    {
      if remoteName == "" {
        remoteName := DefaultRemoteName;
      }
      if referenceName == "" {
        referenceName := Head;
      }
      return None;
    }
  }

  /** Refspecs are kept as text; whether one is valid is decided by
      config.RefSpec.IsValid, given here as `isValid`. */
  class FetchOptions {
    var refSpecs: seq<string>
    var depth: int

    constructor (refSpecs: seq<string>, depth: int)
      ensures this.refSpecs == refSpecs && this.depth == depth
    {
      this.refSpecs := refSpecs;
      this.depth := depth;
    }

    /** Fails exactly when some refspec is invalid; changes nothing. */
    method Validate(isValid: string -> bool) returns (err: Option<string>)
      ensures err.None? <==> forall i :: 0 <= i < |refSpecs| ==> isValid(refSpecs[i])
      ensures err.Some? ==> err.value == ErrInvalidRefSpec
    {
      for i := 0 to |refSpecs|
        invariant forall j :: 0 <= j < i ==> isValid(refSpecs[j])
      {
        if !isValid(refSpecs[i]) {
          return Some(ErrInvalidRefSpec);
        }
      }
      return None;
    }
  }
}
