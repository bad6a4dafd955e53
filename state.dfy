/** state.go: the key/value store that remembers, per namespace and
    repository, the commit last deployed. The Redis server is an in-memory
    map plus a flag saying whether it answers; the KEYS glob
    "k8s-deployer/<namespace>/" followed by a star is read as a prefix test. */
module State {
  import opened Wrappers
  import opened GoStrings

  const KeyRoot := "k8s-deployer/"

  /** The part of the key space one namespace owns: what the KEYS pattern
      "k8s-deployer/<namespace>/" followed by a star selects. */
  function NamespacePrefix(namespace: string): string {
    KeyRoot + namespace + "/"
  }

  /** The key under which the commit of repository `uri` in `namespace` is kept. */
  function StateKey(namespace: string, uri: string): (k: string)
    ensures HasPrefix(k, NamespacePrefix(namespace))
    ensures k[|NamespacePrefix(namespace)|..] == uri
  {
    var p := NamespacePrefix(namespace);
    assert (p + uri)[..|p|] == p;
    p + uri
  }

  /** The keys a clear of `namespace` removes. */
  function Matching(data: map<string, string>, namespace: string): set<string> {
    set k | k in data && HasPrefix(k, NamespacePrefix(namespace))
  }

  /** The store after a namespace-wide clear. */
  function Cleared(data: map<string, string>, namespace: string): map<string, string> {
    data - Matching(data, namespace)
  }

  /** Two namespaces without '/' own disjoint parts of the key space. */
  lemma {:induction false} OtherNamespaceOutside(ns: string, other: string, uri: string)
    requires Free(ns, '/') && Free(other, '/') && ns != other
    ensures !HasPrefix(StateKey(other, uri), NamespacePrefix(ns))
  {
    var k := StateKey(other, uri);
    var p := NamespacePrefix(ns);
    var n := |KeyRoot|;
    assert k == KeyRoot + other + "/" + uri;
    // the first position where the two namespaces (each ended by '/') part
    var d: nat;
    if |ns| < |other| {
      d := |ns|;
      assert k[n + d] == other[d] && p[n + d] == '/';
    } else if |other| < |ns| {
      d := |other|;
      assert k[n + d] == '/' && p[n + d] == ns[d];
    } else {
      d :| 0 <= d < |ns| && ns[d] != other[d];
      assert k[n + d] == other[d] && p[n + d] == ns[d];
    }
    if |p| <= |k| {
      assert k[..|p|][n + d] != p[n + d];
    }
  }

  /** A key determines its namespace and repository, for namespaces without '/'. */
  lemma StateKeyInjective(n1: string, u1: string, n2: string, u2: string)
    requires Free(n1, '/') && Free(n2, '/')
    requires StateKey(n1, u1) == StateKey(n2, u2)
    ensures n1 == n2 && u1 == u2
  {
    if n1 != n2 {
      OtherNamespaceOutside(n1, n2, u2);
      assert false;
    }
  }

  /** A clear removes every key of its namespace... */
  lemma ClearRemovesNamespace(data: map<string, string>, namespace: string, uri: string)
    ensures StateKey(namespace, uri) !in Cleared(data, namespace)
  {
  }

  /** ...and keeps every other key with its value, those of every other
      namespace without '/' included. */
  lemma ClearKeepsOthers(data: map<string, string>, namespace: string, other: string, uri: string)
    requires Free(namespace, '/') && Free(other, '/') && namespace != other
    requires StateKey(other, uri) in data
    ensures StateKey(other, uri) in Cleared(data, namespace)
    ensures Cleared(data, namespace)[StateKey(other, uri)] == data[StateKey(other, uri)]
  {
    OtherNamespaceOutside(namespace, other, uri);
  }

  /** The server behind the configured address. */
  class RedisServer {
    var data: map<string, string>
    var up: bool

    constructor (data: map<string, string>, up: bool)
      ensures this.data == data && this.up == up
    {
      this.data := data;
      this.up := up;
    }
  }

  /** RedisState: a client of one server. */
  class RedisState {
    const server: RedisServer

    constructor Connected(server: RedisServer)
      requires server.up
      ensures this.server == server
    {
      this.server := server;
    }

    /** The stored value, or "" with an error (redis.Nil for a missing key). */
    method Get(key: string) returns (value: string, err: Option<string>)
      ensures server.up && key in server.data ==> value == server.data[key] && err == None
      ensures !(server.up && key in server.data) ==> value == "" && err.Some?
    {
      if !server.up {
        return "", Some("connection refused");
      }
      if key !in server.data {
        return "", Some("redis: nil");
      }
      return server.data[key], None;
    }

    method Set(key: string, value: string) returns (err: Option<string>)
      modifies server
      ensures server.up == old(server.up)
      ensures server.up ==> err == None && server.data == old(server.data)[key := value]
      ensures !server.up ==> err.Some? && server.data == old(server.data)
    {
      if !server.up {
        return Some("connection refused");
      }
      server.data := server.data[key := value];
      return None;
    }

    /** DEL of one key. */
    method Del(key: string) returns (err: Option<string>)
      modifies server
      ensures server.up == old(server.up)
      ensures server.up ==> err == None && server.data == old(server.data) - {key}
      ensures !server.up ==> err.Some? && server.data == old(server.data)
    {
      if !server.up {
        return Some("connection refused");
      }
      server.data := server.data - {key};
      return None;
    }

    /** Deletes every key of the namespace. It fails only when the keys cannot
        be listed; the outcome of each delete is ignored. */
    method Clear(namespace: string) returns (err: Option<string>)
      modifies server
      ensures server.up == old(server.up)
      ensures old(server.up) ==> err == None && server.data == Cleared(old(server.data), namespace)
      ensures !old(server.up) ==> err.Some? && server.data == old(server.data)
    {
      if !server.up {
        return Some("connection refused");
      }
      var matched := Matching(server.data, namespace);
      var keys := matched;
      while keys != {}
        invariant server.up
        invariant keys <= matched
        invariant server.data == old(server.data) - (matched - keys)
        decreases keys
      {
        var key :| key in keys;
        var _ := Del(key);
        keys := keys - {key};
      }
      return None;
    }
  }

  /** NewRedisState: connecting fails, with no client, when the ping fails. */
  method NewRedisState(server: RedisServer) returns (s: RedisState?, err: Option<string>)
    ensures s != null <==> server.up
    ensures s != null ==> s.server == server && err == None
    ensures s == null ==> err.Some?
  {
    if !server.up {
      return null, Some("dial tcp: connection refused");
    }
    s := new RedisState.Connected(server);
    return s, None;
  }
}
