/** The few pieces of Go's `strings` and `sort` packages the deployer relies on,
    on Dafny strings (`seq<char>`). */
module GoStrings {

  /** strings.HasPrefix */
  predicate HasPrefix(s: string, prefix: string) {
    |prefix| <= |s| && s[..|prefix|] == prefix
  }

  /** strings.HasSuffix */
  predicate HasSuffix(s: string, suffix: string) {
    |suffix| <= |s| && s[|s| - |suffix|..] == suffix
  }

  /** strings.TrimSuffix: drops `suffix` once if `s` ends with it. */
  function TrimSuffix(s: string, suffix: string): (r: string)
    ensures HasSuffix(s, suffix) ==> r + suffix == s
    ensures !HasSuffix(s, suffix) ==> r == s
  {
    if HasSuffix(s, suffix) then s[..|s| - |suffix|] else s
  }

  /** `c` occurs nowhere in `s`. */
  predicate Free(s: string, c: char) {
    forall k :: 0 <= k < |s| ==> s[k] != c
  }

  /** strings.IndexByte: the first position of `c`, or -1. */
  function IndexByte(s: string, c: char): (r: int)
    ensures -1 <= r < |s|
  {
    if |s| == 0 then -1
    else if s[0] == c then 0
    else
      var k := IndexByte(s[1..], c);
      if k == -1 then -1 else k + 1
  }

  /** IndexByte is -1 exactly when `c` does not occur, and otherwise the
      first position of `c`. */
  lemma {:induction false} IndexByteSpec(s: string, c: char)
    ensures var r := IndexByte(s, c);
      && (r == -1 <==> Free(s, c))
      && (r != -1 ==> s[r] == c && forall k :: 0 <= k < r ==> s[k] != c)
  {
    if |s| > 0 && s[0] != c {
      IndexByteSpec(s[1..], c);
      assert forall j :: 0 <= j < |s| - 1 ==> s[1..][j] == s[j + 1];
    }
  }

  /** The inverse of Split: the parts glued back with `sep` between them. */
  function Join(parts: seq<string>, sep: char): string {
    if |parts| == 0 then ""
    else if |parts| == 1 then parts[0]
    else parts[0] + [sep] + Join(parts[1..], sep)
  }

  /** strings.Split(s, string(sep)): the maximal `sep`-free pieces of `s`,
      in order; an `s` without `sep` (the empty string included) is one piece. */
  function Split(s: string, sep: char): (r: seq<string>)
    ensures |r| >= 1
    decreases |s|
  {
    var i := IndexByte(s, sep);
    if i == -1 then [s] else [s[..i]] + Split(s[i + 1..], sep)
  }

  /** One step of Split: no separator leaves one piece; otherwise the
      separator-free text before the first separator is the first piece. */
  lemma SplitOnce(s: string, sep: char) returns (i: int)
    ensures i == IndexByte(s, sep)
    ensures i == -1 ==> Free(s, sep) && Split(s, sep) == [s]
    ensures i != -1 ==> 0 <= i < |s| && s[i] == sep && Free(s[..i], sep)
    ensures i != -1 ==> Split(s, sep) == [s[..i]] + Split(s[i + 1..], sep)
  {
    i := IndexByte(s, sep);
    IndexByteSpec(s, sep);
    if i != -1 {
      forall k | 0 <= k < i ensures s[..i][k] != sep {
        assert s[..i][k] == s[k];
      }
    }
  }

  /** Join undoes Split. */
  lemma {:induction false} JoinSplit(s: string, sep: char)
    ensures Join(Split(s, sep), sep) == s
    decreases |s|
  {
    var i := SplitOnce(s, sep);
    if i != -1 {
      var t := s[i + 1..];
      JoinSplit(t, sep);
      JoinCons(s[..i], Split(t, sep), sep);
      Around(s, i);
    }
  }

  lemma JoinCons(x: string, ps: seq<string>, sep: char)
    requires |ps| >= 1
    ensures Join([x] + ps, sep) == x + [sep] + Join(ps, sep)
  {
    assert ([x] + ps)[1..] == ps;
  }

  lemma Around(s: string, i: nat)
    requires i < |s|
    ensures s == s[..i] + [s[i]] + s[i + 1..]
  {
  }

  /** No piece of a Split contains the separator. */
  lemma {:induction false} SplitPiecesFree(s: string, sep: char, k: nat)
    requires k < |Split(s, sep)|
    ensures Free(Split(s, sep)[k], sep)
    decreases |s|
  {
    var i := SplitOnce(s, sep);
    if i != -1 {
      var rest := Split(s[i + 1..], sep);
      ConsAt(s[..i], rest, k);
      if k > 0 {
        SplitPiecesFree(s[i + 1..], sep, k - 1);
      }
    }
  }

  lemma ConsAt(x: string, rest: seq<string>, k: nat)
    requires k <= |rest|
    ensures ([x] + rest)[k] == if k == 0 then x else rest[k - 1]
  {
  }

  /** The first piece of a Split is the longest `sep`-free prefix, and the
      other pieces are the Split of what follows its separator. */
  lemma SplitHead(s: string, sep: char)
    ensures var r := Split(s, sep)[0];
      Free(r, sep) && HasPrefix(s, r) && (|r| == |s| || s[|r|] == sep)
    ensures Free(s, sep) ==> Split(s, sep) == [s]
    ensures !Free(s, sep) ==> |Split(s, sep)| >= 2
    ensures !Free(s, sep) ==> Split(s, sep)[1..] == Split(s[|Split(s, sep)[0]| + 1..], sep)
  {
    var i := SplitOnce(s, sep);
    if i == -1 {
      HeadWhole(s, sep, Split(s, sep));
    } else {
      var all := Split(s, sep);
      HeadCut(s, sep, i, Split(s[i + 1..], sep), all);
      assert s[|all[0]| + 1..] == s[i + 1..];
    }
  }

  /** SplitHead when there is no separator. */
  lemma HeadWhole(s: string, sep: char, all: seq<string>)
    requires Free(s, sep) && all == [s]
    ensures Free(all[0], sep) && HasPrefix(s, all[0]) && |all[0]| == |s|
  {
    assert s[..|s|] == s;
  }

  /** SplitHead when the first separator is at `i`. */
  lemma HeadCut(s: string, sep: char, i: nat, rest: seq<string>, all: seq<string>)
    requires i < |s| && s[i] == sep && Free(s[..i], sep)
    requires |rest| >= 1 && all == [s[..i]] + rest
    ensures Free(all[0], sep) && HasPrefix(s, all[0]) && |all[0]| == i && s[|all[0]|] == sep
    ensures !Free(s, sep) && |all| >= 2 && all[1..] == rest
  {
    assert all[0] == s[..i];
    assert all[1..] == rest;
  }

  /** Split undoes Join whenever no part contains the separator. */
  lemma {:induction false} SplitJoin(parts: seq<string>, sep: char)
    requires |parts| >= 1
    requires forall i :: 0 <= i < |parts| ==> Free(parts[i], sep)
    ensures Split(Join(parts, sep), sep) == parts
  {
    if |parts| == 1 {
      IndexByteSpec(parts[0], sep);
    } else {
      var rest := parts[1..];
      assert forall i :: 0 <= i < |rest| ==> Free(rest[i], sep) by {
        forall i | 0 <= i < |rest| ensures Free(rest[i], sep) { assert rest[i] == parts[i + 1]; }
      }
      SplitJoin(rest, sep);
      SplitCons(parts[0], Join(rest, sep), sep);
      assert parts == [parts[0]] + rest;
    }
  }

  /** A separator-free piece followed by a separator splits off first. */
  lemma SplitCons(p: string, t: string, sep: char)
    requires Free(p, sep)
    ensures Split(p + [sep] + t, sep) == [p] + Split(t, sep)
  {
    var s := p + [sep] + t;
    assert s[|p|] == sep;
    assert forall k :: 0 <= k < |p| ==> s[k] == p[k];
    IndexByteSpec(s, sep);
    assert IndexByte(s, sep) == |p|;
    assert s[..|p|] == p;
    assert s[|p| + 1..] == t;
  }

  /** `r` is a `sep`-free suffix of `s` that is all of `s` or follows a `sep`. */
  predicate EndPiece(s: string, sep: char, r: string) {
    Free(r, sep) && HasSuffix(s, r) && (|r| == |s| || s[|s| - |r| - 1] == sep)
  }

  /** The last piece of Split(s, sep): the longest `sep`-free suffix of `s`. */
  function LastPiece(s: string, sep: char): string {
    Split(s, sep)[|Split(s, sep)| - 1]
  }

  /** LastPiece is a `sep`-free suffix that is all of `s` or follows a `sep`. */
  lemma LastPieceEnd(s: string, sep: char)
    ensures var r := LastPiece(s, sep);
      Free(r, sep) && HasSuffix(s, r) && (|r| == |s| || s[|s| - |r| - 1] == sep)
  {
    LastOfSplit(s, sep);
  }

  /** LastPiece is the only suffix with its three properties. */
  lemma LastPieceUnique(s: string, sep: char, r: string)
    requires Free(r, sep) && HasSuffix(s, r)
    requires |r| == |s| || s[|s| - |r| - 1] == sep
    ensures LastPiece(s, sep) == r
  {
    LastPieceEnd(s, sep);
  }

  lemma {:induction false} LastOfSplit(s: string, sep: char)
    ensures EndPiece(s, sep, Split(s, sep)[|Split(s, sep)| - 1])
    decreases |s|
  {
    var i := IndexByte(s, sep);
    if i == -1 {
      assert Free(s, sep) && Split(s, sep) == [s] by { var _ := SplitOnce(s, sep); }
      WholePiece(s, sep, Split(s, sep)[|Split(s, sep)| - 1]);
    } else {
      var t := s[i + 1..];
      assert s[i] == sep by { var _ := SplitOnce(s, sep); }
      var rest := Split(t, sep);
      var all := Split(s, sep);
      assert all == [s[..i]] + rest by { var _ := SplitOnce(s, sep); }
      LastOfSplit(t, sep);
      LastOfCons(s[..i], rest, all);
      EndAfter(s, sep, i, rest[|rest| - 1], all[|all| - 1]);
    }
  }

  /** Without a separator, the whole string is its own end piece. */
  lemma WholePiece(s: string, sep: char, r: string)
    requires Free(s, sep) && r == s
    ensures EndPiece(s, sep, r)
  {
    assert s[|s| - |s|..] == s;
  }

  lemma LastOfCons(x: string, rest: seq<string>, all: seq<string>)
    requires |rest| > 0 && all == [x] + rest
    ensures all[|all| - 1] == rest[|rest| - 1]
  {
  }

  /** An end piece of what follows a separator is an end piece of the whole. */
  lemma EndAfter(s: string, sep: char, i: nat, r: string, r': string)
    requires i < |s| && s[i] == sep && EndPiece(s[i + 1..], sep, r) && r' == r
    ensures EndPiece(s, sep, r')
  {
    SuffixAfter(s, sep, i, r);
  }

  /** The suffix part of EndAfter. */
  lemma SuffixAfter(s: string, sep: char, i: nat, r: string)
    requires i < |s| && s[i] == sep
    requires HasSuffix(s[i + 1..], r) && (|r| == |s[i + 1..]| || s[i + 1..][|s[i + 1..]| - |r| - 1] == sep)
    ensures HasSuffix(s, r) && (|r| == |s| || s[|s| - |r| - 1] == sep)
  {
    DropDrop(s, i + 1, |s| - i - 1 - |r|);
    if |r| < |s| - i - 1 {
      assert s[i + 1..][|s| - i - 1 - |r| - 1] == s[|s| - |r| - 1];
    }
  }

  lemma DropDrop(s: string, a: nat, b: nat)
    requires a + b <= |s|
    ensures s[a..][b..] == s[a + b..]
  {
  }

  /** Go's string comparison `a < b`: byte-wise lexicographic order (on code
      points, which UTF-8 encodes in the same order). */
  predicate Lt(a: string, b: string) {
    |b| > 0 && (|a| == 0 || a[0] < b[0] || (a[0] == b[0] && Lt(a[1..], b[1..])))
  }

  lemma {:induction false} LtIrreflexive(a: string)
    ensures !Lt(a, a)
  {
    if |a| > 0 { LtIrreflexive(a[1..]); }
  }

  lemma {:induction false} LtTransitive(a: string, b: string, c: string)
    requires Lt(a, b) && Lt(b, c)
    ensures Lt(a, c)
  {
    if |a| > 0 && a[0] == b[0] && b[0] == c[0] {
      LtTransitive(a[1..], b[1..], c[1..]);
    }
  }

  lemma {:induction false} LtTrichotomy(a: string, b: string)
    ensures a == b || Lt(a, b) || Lt(b, a)
  {
    if |a| > 0 && |b| > 0 && a[0] == b[0] {
      LtTrichotomy(a[1..], b[1..]);
      if a[1..] == b[1..] {
        assert a == [a[0]] + a[1..] && b == [b[0]] + b[1..];
      }
    }
  }

  lemma LtAsymmetric(a: string, b: string)
    requires Lt(a, b)
    ensures !Lt(b, a)
  {
    if Lt(b, a) {
      LtTransitive(a, b, a);
      LtIrreflexive(a);
    }
  }

  /** Ascending order as sort.Strings leaves it (equal strings may repeat). */
  predicate Sorted(s: seq<string>) {
    forall i, j :: 0 <= i < j < |s| ==> !Lt(s[j], s[i])
  }

  /** Strictly ascending: sorted and without repeats. */
  predicate StrictlySorted(s: seq<string>) {
    forall i, j :: 0 <= i < j < |s| ==> Lt(s[i], s[j])
  }

  function Insert(x: string, s: seq<string>): (r: seq<string>)
    requires Sorted(s)
    ensures Sorted(r) && multiset(r) == multiset(s) + multiset{x}
  {
    if |s| == 0 then [x]
    else if Lt(s[0], x) then
      var t := Insert(x, s[1..]);
      assert s == [s[0]] + s[1..];
      InsertSortedHead(s[0], x, s[1..], t);
      [s[0]] + t
    else
      InsertFront(x, s);
      [x] + s
  }

  /** An element below none of a sorted sequence's head can go in front. */
  lemma InsertFront(x: string, s: seq<string>)
    requires Sorted(s) && |s| > 0 && !Lt(s[0], x)
    ensures Sorted([x] + s)
  {
    forall j | 0 <= j < |s| ensures !Lt(s[j], x) {
      if Lt(s[j], x) {
        LtTrichotomy(s[0], s[j]);
        if s[0] != s[j] { LtTransitive(s[0], s[j], x); }
      }
    }
    forall i, j | 0 <= i < j < |[x] + s| ensures !Lt(([x] + s)[j], ([x] + s)[i]) {
      if i > 0 {
        assert ([x] + s)[j] == s[j - 1] && ([x] + s)[i] == s[i - 1];
      }
    }
  }

  lemma InsertSortedHead(h: string, x: string, rest: seq<string>, t: seq<string>)
    requires Sorted([h] + rest) && Lt(h, x)
    requires Sorted(t) && multiset(t) == multiset(rest) + multiset{x}
    ensures Sorted([h] + t)
    ensures multiset([h] + t) == multiset([h] + rest) + multiset{x}
  {
    forall j | 0 <= j < |t| ensures !Lt(t[j], h) {
      assert t[j] in multiset(t);
      if t[j] == x {
        LtAsymmetric(h, x);
      } else {
        assert t[j] in multiset(rest);
        var k :| 0 <= k < |rest| && rest[k] == t[j];
        assert ([h] + rest)[k + 1] == t[j] && ([h] + rest)[0] == h;
        assert !Lt(([h] + rest)[k + 1], ([h] + rest)[0]);
      }
    }
  }

  /** sort.Strings, as an insertion sort: the sorted permutation of `s`. */
  function SortStrings(s: seq<string>): (r: seq<string>)
    ensures Sorted(r) && multiset(r) == multiset(s)
  {
    if |s| == 0 then []
    else
      assert s == [s[0]] + s[1..];
      Insert(s[0], SortStrings(s[1..]))
  }

  /** The head of a sorted sequence is below none of its elements. */
  lemma SortedHeadLeast(a: seq<string>, x: string)
    requires Sorted(a) && x in multiset(a)
    ensures !Lt(x, a[0])
  {
    var j :| 0 <= j < |a| && a[j] == x;
    if j == 0 { LtIrreflexive(x); }
  }

  lemma SortedTail(a: seq<string>)
    requires Sorted(a) && |a| > 0
    ensures Sorted(a[1..]) && multiset(a[1..]) == multiset(a) - multiset{a[0]}
  {
    assert a == [a[0]] + a[1..];
    assert multiset(a) == multiset{a[0]} + multiset(a[1..]);
    forall k, l | 0 <= k < l < |a| - 1 ensures !Lt(a[1..][l], a[1..][k]) {
      assert a[1..][l] == a[l + 1] && a[1..][k] == a[k + 1];
    }
  }

  /** A sorted permutation is unique: sorting depends only on the multiset. */
  lemma {:induction false} SortedUnique(a: seq<string>, b: seq<string>)
    requires Sorted(a) && Sorted(b) && multiset(a) == multiset(b)
    ensures a == b
    decreases |a|
  {
    assert |a| == |b| by {
      assert |a| == |multiset(a)| && |b| == |multiset(b)|;
    }
    if |a| > 0 {
      SortedHeads(a, b);
      SortedTail(a);
      SortedTail(b);
      SortedUnique(a[1..], b[1..]);
      HeadTailEqual(a, b);
    }
  }

  lemma HeadTailEqual(a: seq<string>, b: seq<string>)
    requires |a| > 0 && |b| > 0 && a[0] == b[0] && a[1..] == b[1..]
    ensures a == b
  {
    assert a == [a[0]] + a[1..] && b == [b[0]] + b[1..];
  }

  /** Two sorted permutations of each other start alike. */
  lemma SortedHeads(a: seq<string>, b: seq<string>)
    requires Sorted(a) && Sorted(b) && multiset(a) == multiset(b) && |a| > 0 && |b| > 0
    ensures a[0] == b[0]
  {
    assert a[0] in multiset(b) && b[0] in multiset(a);
    SortedHeadLeast(a, b[0]);
    SortedHeadLeast(b, a[0]);
    LtTrichotomy(a[0], b[0]);
  }

  /** A sorted sequence without repeated elements is strictly ascending. */
  lemma SortedDistinctIsStrict(s: seq<string>)
    requires Sorted(s)
    requires forall x :: multiset(s)[x] <= 1
    ensures StrictlySorted(s)
  {
    forall i, j | 0 <= i < j < |s| ensures Lt(s[i], s[j]) {
      LtTrichotomy(s[i], s[j]);
      if s[i] == s[j] {
        RepeatCounted(s, i, j);
        assert false;
      }
    }
  }

  lemma RepeatCounted(s: seq<string>, i: nat, j: nat)
    requires i < j < |s| && s[i] == s[j]
    ensures multiset(s)[s[i]] >= 2
  {
    assert s == s[..i] + [s[i]] + s[i + 1..j] + [s[j]] + s[j + 1..];
    assert multiset(s) == multiset(s[..i]) + multiset{s[i]} + multiset(s[i + 1..j]) + multiset{s[j]} + multiset(s[j + 1..]);
  }
}
