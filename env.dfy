/** env.go: the process environment as a key/value map, the way `envToMap`
    builds it from `os.Environ()`. The environment is a parameter here. */
module Env {
  import opened Wrappers
  import opened GoStrings

  /** Every entry holds an '='; otherwise `vp[1]` is out of range and envToMap panics. */
  predicate WellFormed(environ: seq<string>) {
    forall i :: 0 <= i < |environ| ==> !Free(environ[i], '=')
  }

  /** vp[0]: the text before the first '='. */
  function EntryKey(v: string): (k: string)
    requires !Free(v, '=')
    ensures Free(k, '=') && HasPrefix(v, k + "=")
  {
    SplitHead(v, '=');
    var k := Split(v, '=')[0];
    assert v[..|k| + 1] == k + "=";
    k
  }

  /** vp[1]: the text between the first and the second '=', so a value that
      itself holds '=' is cut short at it. */
  function EntryValue(v: string): (val: string)
    requires !Free(v, '=')
    ensures Free(val, '=')
    ensures HasPrefix(v, EntryKey(v) + "=" + val)
    ensures var n := |EntryKey(v)| + 1 + |val|; n == |v| || v[n] == '='
  {
    SecondPiece(v);
    Split(v, '=')[1]
  }

  lemma SecondPiece(v: string)
    requires !Free(v, '=')
    ensures |Split(v, '=')| >= 2
    ensures var val := Split(v, '=')[1]; var n := |EntryKey(v)| + 1 + |val|;
      Free(val, '=') && HasPrefix(v, EntryKey(v) + "=" + val) && (n == |v| || v[n] == '=')
  {
    var k := EntryKey(v);
    var t := v[|k| + 1..];
    var val := Split(t, '=')[0];
    assert Split(v, '=')[1] == val by {
      SplitHead(v, '=');
      assert Split(v, '=')[1..][0] == val;
    }
    assert Free(val, '=') && HasPrefix(t, val) && (|val| == |t| || t[|val|] == '=') by {
      SplitHead(t, '=');
    }
    PrefixAfter(v, k, val);
  }

  /** A prefix of what follows `k` and one separator, extended by `k` and that separator. */
  lemma PrefixAfter(v: string, k: string, val: string)
    requires HasPrefix(v, k + "=")
    requires HasPrefix(v[|k| + 1..], val)
    requires |val| == |v| - |k| - 1 || v[|k| + 1..][|val|] == '='
    ensures HasPrefix(v, k + "=" + val)
    ensures |k| + 1 + |val| == |v| || v[|k| + 1 + |val|] == '='
  {
    var t := v[|k| + 1..];
    assert v == v[..|k| + 1] + t;
    assert v[..|k| + 1 + |val|] == k + "=" + val;
  }

  /** The map envToMap returns: one key per entry, a later entry overwriting
      an earlier one with the same key. */
  function EnvMap(environ: seq<string>): map<string, string>
    requires WellFormed(environ)
  {
    if |environ| == 0 then map[]
    else
      var last := environ[|environ| - 1];
      EnvMap(environ[..|environ| - 1])[EntryKey(last) := EntryValue(last)]
  }

  /** envToMap over an explicit environment; the runtime panic on an entry
      without '=' becomes an error result. */
  method EnvToMap(environ: seq<string>) returns (r: Result<map<string, string>>)
    ensures r.Ok? <==> WellFormed(environ)
    ensures r.Ok? ==> r.value == EnvMap(environ)
  {
    var out: map<string, string> := map[];
    for i := 0 to |environ|
      invariant WellFormed(environ[..i])
      invariant out == EnvMap(environ[..i])
    {
      var vp := Split(environ[i], '=');
      assert |vp| < 2 <==> Free(environ[i], '=') by { SplitHead(environ[i], '='); }
      if |vp| < 2 {
        return Err("runtime error: index out of range [1] with length 1");
      }
      EnvMapSnoc(environ, i);
      out := out[vp[0] := vp[1]];
    }
    assert environ[..|environ|] == environ;
    return Ok(out);
  }

  /** One more well-formed entry extends the map by its key and value. */
  lemma EnvMapSnoc(environ: seq<string>, i: nat)
    requires i < |environ| && WellFormed(environ[..i]) && !Free(environ[i], '=')
    ensures WellFormed(environ[..i + 1])
    ensures EnvMap(environ[..i + 1]) == EnvMap(environ[..i])[EntryKey(environ[i]) := EntryValue(environ[i])]
  {
    assert environ[..i + 1][..i] == environ[..i];
  }

  lemma WellFormedPrefix(environ: seq<string>, n: nat)
    requires WellFormed(environ) && n <= |environ|
    ensures WellFormed(environ[..n])
  {
    forall i | 0 <= i < n ensures !Free(environ[..n][i], '=') {
      assert environ[..n][i] == environ[i];
    }
  }

  /** The keys of the map are exactly the keys of the entries. */
  lemma {:induction false} EnvMapKeys(environ: seq<string>, k: string)
    requires WellFormed(environ)
    ensures k in EnvMap(environ) <==> exists i :: 0 <= i < |environ| && EntryKey(environ[i]) == k
  {
    if |environ| > 0 {
      var init := environ[..|environ| - 1];
      WellFormedPrefix(environ, |environ| - 1);
      EnvMapKeys(init, k);
      KeyAmongSnoc(environ, init, k);
    }
  }

  lemma KeyAmongSnoc(environ: seq<string>, init: seq<string>, k: string)
    requires WellFormed(environ) && |environ| > 0 && init == environ[..|environ| - 1]
    ensures WellFormed(init)
    ensures (exists i :: 0 <= i < |environ| && EntryKey(environ[i]) == k) <==>
      (|| (exists i :: 0 <= i < |init| && EntryKey(init[i]) == k)
       || EntryKey(environ[|environ| - 1]) == k)
  {
    WellFormedPrefix(environ, |environ| - 1);
    if exists i :: 0 <= i < |init| && EntryKey(init[i]) == k {
      var i :| 0 <= i < |init| && EntryKey(init[i]) == k;
      assert environ[i] == init[i];
    }
    if exists i :: 0 <= i < |environ| && EntryKey(environ[i]) == k {
      var i :| 0 <= i < |environ| && EntryKey(environ[i]) == k;
      if i < |init| { assert init[i] == environ[i]; }
    }
  }

  /** The last entry with a given key decides its value. */
  lemma {:induction false} EnvMapLastWins(environ: seq<string>, j: nat)
    requires WellFormed(environ) && j < |environ|
    requires forall l :: j < l < |environ| ==> EntryKey(environ[l]) != EntryKey(environ[j])
    ensures EntryKey(environ[j]) in EnvMap(environ)
    ensures EnvMap(environ)[EntryKey(environ[j])] == EntryValue(environ[j])
  {
    var init := environ[..|environ| - 1];
    if j < |environ| - 1 {
      assert init[j] == environ[j];
      WellFormedPrefix(environ, |environ| - 1);
      forall l | j < l < |init| ensures EntryKey(init[l]) != EntryKey(init[j]) {
        assert init[l] == environ[l];
      }
      EnvMapLastWins(init, j);
    }
  }

  /** The truncation quirk on a concrete entry: "A=b=c" yields A -> "b". */
  lemma TruncatedValue()
    ensures !Free("A=b=c", '=') && EnvMap(["A=b=c"]) == map["A" := "b"]
  {
    var v := "A=b=c";
    assert v[1] == '=';
    assert Join(["A", "b", "c"], '=') == v by {
      assert Join(["c"], '=') == "c";
      assert Join(["b", "c"], '=') == "b" + "=" + "c";
    }
    SplitJoin(["A", "b", "c"], '=');
    assert ["A=b=c"][..0] == [];
  }
}
