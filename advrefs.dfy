/** The advertised-refs encoder of go-git (packp/advrefs/encoder.go): the
    server's reference advertisement of git's smart protocol ("Reference
    Discovery" in the pack-protocol technical document). The output is the
    sequence of pkt-lines written, each a payload or a flush-pkt; the
    4-byte length framing is left out. */
module AdvRefs {
  import opened Wrappers
  import opened GoStrings
  import Git

  datatype Pkt = Payload(text: string) | Flush

  /** The first-line separators: HEAD when there is a head, and the
      placeholder name the protocol uses when there is none. */
  const HeadName := "HEAD"
  const NoHeadName := "capabilities^{}"

  /** A capability list as packp keeps it: the capability names in the
      order they were added, and each name's values in the order they were
      added. A name outside `values` has no value. */
  datatype Capabilities = Capabilities(order: seq<string>, values: map<string, seq<string>>)

  /** An advertisement. Hashes are their 40-character hex strings; a nil
      Go reference is None. */
  datatype AdvRefs = AdvRefs(
    prefix: seq<string>,
    head: Option<string>,
    capabilities: Option<Capabilities>,
    references: map<string, string>,
    peeled: map<string, string>,
    shallows: seq<string>)

  function FormatHead(h: Option<string>): string {
    if h.None? then Git.ZeroHash else h.value
  }

  function FormatSeparator(h: Option<string>): string {
    if h.None? then NoHeadName else HeadName
  }

  function ValuesOf(c: Capabilities, name: string): seq<string> {
    if name in c.values then c.values[name] else []
  }

  /** One value of a capability: the bare name for an empty value,
      otherwise "name=value". */
  function CapValue(name: string, value: string): string {
    if value == "" then name else name + "=" + value
  }

  /** The rendered entries of one capability: its bare name when it has no
      value, otherwise one entry per value, in order. */
  function CapEntries(name: string, vals: seq<string>): seq<string> {
    if vals == [] then [name] else seq(|vals|, i requires 0 <= i < |vals| => CapValue(name, vals[i]))
  }

  /** The entries of the named capabilities, name after name. */
  function CapsEntries(c: Capabilities, names: seq<string>): seq<string> {
    if names == [] then []
    else CapEntries(names[0], ValuesOf(c, names[0])) + CapsEntries(c, names[1..])
  }

  /** formatCaps: the names are sorted (Capabilities.Sort), then every
      entry is rendered and the entries joined by a space
      (Capabilities.String). */
  function FormatCaps(c: Option<Capabilities>): string {
    if c.None? then "" else Join(CapsEntries(c.value, SortStrings(c.value.order)), ' ')
  }

  /** "<head> <separator>\x00<capabilities>\n" */
  function FirstLine(v: AdvRefs): string {
    FormatHead(v.head) + " " + FormatSeparator(v.head) + "\0" + FormatCaps(v.capabilities) + "\n"
  }

  /** A prefix entry: the empty entry is the flush-pkt, any other a line. */
  function PrefixPkt(p: string): Pkt {
    if p == "" then Flush else Payload(p + "\n")
  }

  function PrefixPkts(prefix: seq<string>): (r: seq<Pkt>)
    ensures |r| == |prefix| && forall i :: 0 <= i < |prefix| ==> r[i] == PrefixPkt(prefix[i])
  {
    seq(|prefix|, i requires 0 <= i < |prefix| => PrefixPkt(prefix[i]))
  }

  function RefLine(name: string, hash: string): Pkt {
    Payload(hash + " " + name + "\n")
  }

  function PeeledLine(name: string, hash: string): Pkt {
    Payload(hash + " " + name + "^{}\n")
  }

  /** A reference's line, followed by its peeled line when it has one. */
  function RefGroup(v: AdvRefs, name: string): seq<Pkt>
    requires name in v.references
  {
    [RefLine(name, v.references[name])]
      + (if name in v.peeled then [PeeledLine(name, v.peeled[name])] else [])
  }

  predicate AllRefs(v: AdvRefs, names: seq<string>) {
    AllKeys(v.references, names)
  }

  /** The groups of the given references, in the given order. */
  function RefsPkts(v: AdvRefs, names: seq<string>): seq<Pkt>
    requires AllRefs(v, names)
  {
    if names == [] then []
    else RefsPkts(v, names[..|names| - 1]) + RefGroup(v, names[|names| - 1])
  }

  function ShallowPkts(sorted: seq<string>): (r: seq<Pkt>)
    ensures |r| == |sorted| && forall i :: 0 <= i < |sorted| ==> r[i] == Payload("shallow " + sorted[i] + "\n")
  {
    seq(|sorted|, i requires 0 <= i < |sorted| => Payload("shallow " + sorted[i] + "\n"))
  }

  /** sortShallows: the hashes' strings, sorted. */
  function SortShallows(shallows: seq<string>): (r: seq<string>)
    ensures Sorted(r) && multiset(r) == multiset(shallows)
  {
    SortStrings(shallows)
  }

  /** Some listing of a set, each element once. */
  ghost function SetToSeq(s: set<string>): (r: seq<string>)
    ensures multiset(r) == multiset(s)
  {
    if s == {} then []
    else
      var x :| x in s;
      [x] + SetToSeq(s - {x})
  }

  /** The names of a map in ascending order. */
  ghost function SortedKeys(m: map<string, string>): (r: seq<string>)
    ensures Sorted(r) && multiset(r) == multiset(m.Keys)
    ensures AllKeys(m, r)
  {
    var r := SortStrings(SetToSeq(m.Keys));
    forall i | 0 <= i < |r| ensures r[i] in m {
      assert r[i] in multiset(r);
    }
    r
  }

  predicate AllKeys(m: map<string, string>, names: seq<string>) {
    forall i :: 0 <= i < |names| ==> names[i] in m
  }

  /** What each state of the encoder writes, in the order of the states. */
  ghost function Parts(v: AdvRefs): (ps: seq<seq<Pkt>>)
    ensures |ps| == 5 && ps[1] != [] && ps[4] == [Flush]
  {
    [StagePkts(v, PrefixStage), StagePkts(v, FirstLineStage), StagePkts(v, RefsStage),
     StagePkts(v, ShallowStage), StagePkts(v, FlushStage)]
  }

  function Concat<T>(ps: seq<seq<T>>): seq<T> {
    if ps == [] then [] else Concat(ps[..|ps| - 1]) + ps[|ps| - 1]
  }

  lemma {:induction false} ConcatAppend<T>(a: seq<seq<T>>, b: seq<seq<T>>)
    ensures Concat(a + b) == Concat(a) + Concat(b)
    decreases |b|
  {
    if b == [] {
      assert a + b == a;
    } else {
      var c := b[..|b| - 1];
      assert (a + b)[..|a + b| - 1] == a + c;
      ConcatAppend(a, c);
    }
  }

  /** Everything an encoding of `v` writes, in order. */
  ghost function Expected(v: AdvRefs): seq<Pkt> {
    Concat(Parts(v))
  }

  /** The error of write attempt k: `faults[k]` when it fails. */
  function Fault(faults: imap<nat, string>, k: nat): Option<string> {
    if k in faults then Some(faults[k]) else None
  }

  /** What writing some packets in order did: the packets the stream
      took, the number of writes attempted and the error of the last one. */
  datatype Sent = Sent(pkts: seq<Pkt>, attempts: nat, err: Option<string>)

  /** Writing `pkts` in order from write attempt `from` on, when attempt k
      fails with `Fault(faults, k)`: the first failing write stops it. */
  function WriteOut(faults: imap<nat, string>, from: nat, pkts: seq<Pkt>): Sent
    decreases |pkts|
  {
    if pkts == [] then Sent([], 0, None)
    else if Fault(faults, from).Some? then Sent([], 1, Fault(faults, from))
    else
      var r := WriteOut(faults, from + 1, pkts[1..]);
      Sent([pkts[0]] + r.pkts, r.attempts + 1, r.err)
  }

  /** None of the `len` write attempts from `from` on fails. */
  predicate NoFault(faults: imap<nat, string>, from: nat, len: nat) {
    forall k: nat :: from <= k < from + len ==> Fault(faults, k).None?
  }

  /** Attempt from + n is the first of `len` attempts from `from` on to fail. */
  predicate FirstFault(faults: imap<nat, string>, from: nat, len: nat, n: nat) {
    n < len && Fault(faults, from + n).Some? && NoFault(faults, from, n)
  }

  /** When no attempt fails, every packet is taken with no error; when
      attempt from + n is the first to fail, the packets before it are
      taken, n + 1 writes were attempted, and its error is the result. */
  lemma {:induction false} WriteOutFirstFault(faults: imap<nat, string>, from: nat, pkts: seq<Pkt>)
    ensures var r := WriteOut(faults, from, pkts);
      r.err.None? <==> NoFault(faults, from, |pkts|)
    ensures var r := WriteOut(faults, from, pkts);
      r.err.None? ==> r == Sent(pkts, |pkts|, None)
    ensures forall n: nat :: FirstFault(faults, from, |pkts|, n) ==>
      WriteOut(faults, from, pkts) == Sent(pkts[..n], n + 1, Fault(faults, from + n))
    decreases |pkts|
  {
    if pkts != [] && Fault(faults, from).None? {
      var tail := pkts[1..];
      WriteOutFirstFault(faults, from + 1, tail);
      assert [pkts[0]] + tail == pkts;
      assert NoFault(faults, from, |pkts|) <==> NoFault(faults, from + 1, |tail|);
      forall n: nat | FirstFault(faults, from, |pkts|, n)
        ensures WriteOut(faults, from, pkts) == Sent(pkts[..n], n + 1, Fault(faults, from + n))
      {
        assert n > 0;
        assert FirstFault(faults, from + 1, |tail|, n - 1);
        assert [pkts[0]] + tail[..n - 1] == pkts[..n];
      }
    } else if pkts != [] {
      assert !NoFault(faults, from, |pkts|);
      forall n: nat | FirstFault(faults, from, |pkts|, n) ensures n == 0 {
        assert n > 0 ==> Fault(faults, from).None?;
      }
    }
  }

  /** Writing two runs of packets where the first fails: the second is
      never started. */
  lemma {:induction false} WriteOutAppendFail(faults: imap<nat, string>, from: nat, x: seq<Pkt>, y: seq<Pkt>)
    requires WriteOut(faults, from, x).err.Some?
    ensures WriteOut(faults, from, x + y) == WriteOut(faults, from, x)
    decreases |x|
  {
    assert x != [];
    assert (x + y)[0] == x[0] && (x + y)[1..] == x[1..] + y;
    if Fault(faults, from).None? {
      WriteOutAppendFail(faults, from + 1, x[1..], y);
    }
  }

  /** Writing two runs of packets where the first has no failure: the
      second starts from the attempt after the first run's. */
  lemma {:induction false} WriteOutAppendOk(faults: imap<nat, string>, from: nat, x: seq<Pkt>, y: seq<Pkt>)
    requires WriteOut(faults, from, x).err.None?
    ensures var ry := WriteOut(faults, from + |x|, y);
      WriteOut(faults, from, x + y) == Sent(x + ry.pkts, |x| + ry.attempts, ry.err)
    decreases |x|
  {
    if x == [] {
      assert x + y == y;
      assert x + WriteOut(faults, from, y).pkts == WriteOut(faults, from, y).pkts;
    } else {
      var t := x[1..];
      assert (x + y)[0] == x[0] && (x + y)[1..] == t + y;
      WriteOutAppendOk(faults, from + 1, t, y);
      var ry := WriteOut(faults, from + |x|, y);
      assert from + 1 + |t| == from + |x|;
      ConsAppend(x, ry.pkts);
    }
  }

  lemma ConsAppend<T>(x: seq<T>, u: seq<T>)
    requires x != []
    ensures [x[0]] + (x[1..] + u) == x + u
  {
    assert x == [x[0]] + x[1..];
  }

  /** Writing three runs where the first has no failure and the second
      fails or the third is empty: the outcome is the second run's. */
  lemma WriteOutThree(faults: imap<nat, string>, from: nat, b: seq<Pkt>, sp: seq<Pkt>, rest: seq<Pkt>)
    requires NoFault(faults, from, |b|)
    requires WriteOut(faults, from + |b|, sp).err.Some? || rest == []
    ensures var r := WriteOut(faults, from + |b|, sp);
      WriteOut(faults, from, b + (sp + rest)) == Sent(b + r.pkts, |b| + r.attempts, r.err)
  {
    WriteOutFirstFault(faults, from, b);
    WriteOutAppendOk(faults, from, b, sp + rest);
    if rest == [] {
      assert sp + rest == sp;
    } else {
      WriteOutAppendFail(faults, from + |b|, sp, rest);
    }
  }

  /** A stream that took what writing `pkts` from attempt `from` on takes:
      all of them when no attempt faults, else the packets before the first
      failing attempt, whose error is the result. */
  lemma SentOutcome(faults: imap<nat, string>, from: nat, pkts: seq<Pkt>, start: seq<Pkt>, sent: seq<Pkt>,
                    attempts: nat, err: Option<string>)
    requires var r := WriteOut(faults, from, pkts);
      sent == start + r.pkts && attempts == from + r.attempts && err == r.err
    ensures NoFault(faults, from, |pkts|) ==> sent == start + pkts && attempts == from + |pkts| && err == None
    ensures forall n: nat :: FirstFault(faults, from, |pkts|, n) ==>
      && sent == start + pkts[..n]
      && attempts == from + n + 1
      && err == Fault(faults, from + n)
  {
    WriteOutFirstFault(faults, from, pkts);
  }

  /** The output stream. Write attempt k fails with `faults[k]` when k is
      in `faults` (a short write, a broken connection); a failing write
      takes nothing. */
  class PktWriter {
    var sent: seq<Pkt>
    var attempts: nat
    const faults: imap<nat, string>

    constructor (faults: imap<nat, string>)
      ensures sent == [] && attempts == 0 && this.faults == faults
    {
      sent := [];
      attempts := 0;
      this.faults := faults;
    }

    method Write(p: Pkt) returns (err: Option<string>)
      modifies this
      ensures attempts == old(attempts) + 1
      ensures err == Fault(faults, old(attempts))
      ensures err.None? ==> sent == old(sent) + [p]
      ensures err.Some? ==> sent == old(sent)
    {
      err := Fault(faults, attempts);
      attempts := attempts + 1;
      if err.None? {
        sent := sent + [p];
      }
    }
  }

  /** The states of the encoder's state machine; Done is the nil state. */
  datatype Stage = PrefixStage | FirstLineStage | RefsStage | ShallowStage | FlushStage | Done

  /** The position of a state among the five that write. */
  function Index(s: Stage): nat
    requires s != Done
    ensures Index(s) < 5
  {
    match s
    case PrefixStage => 0
    case FirstLineStage => 1
    case RefsStage => 2
    case ShallowStage => 3
    case FlushStage => 4
  }

  function NextStage(s: Stage): (n: Stage)
    requires s != Done
    ensures n != Done <==> Index(s) < 4
    ensures n != Done ==> Index(n) == Index(s) + 1
  {
    match s
    case PrefixStage => FirstLineStage
    case FirstLineStage => RefsStage
    case RefsStage => ShallowStage
    case ShallowStage => FlushStage
    case FlushStage => Done
  }

  function Rank(s: Stage): nat {
    if s == Done then 0 else 5 - Index(s)
  }

  /** What state `s` writes. */
  ghost function StagePkts(v: AdvRefs, s: Stage): seq<Pkt>
    requires s != Done
  {
    match s
    case PrefixStage => PrefixPkts(v.prefix)
    case FirstLineStage => [Payload(FirstLine(v))]
    case RefsStage => RefsPkts(v, SortedKeys(v.references))
    case ShallowStage => ShallowPkts(SortShallows(v.shallows))
    case FlushStage => [Flush]
  }

  lemma PartsAt(v: AdvRefs)
    ensures forall s :: s != Done ==> Parts(v)[Index(s)] == StagePkts(v, s)
  {
  }

  /** The whole output: the prefix, the first line, the references in
      ascending order of name each with its peeled line, the sorted
      shallows, and a flush-pkt. */
  lemma ExpectedLayout(v: AdvRefs)
    ensures Expected(v) ==
      PrefixPkts(v.prefix) + [Payload(FirstLine(v))] + RefsPkts(v, SortedKeys(v.references))
      + ShallowPkts(SortShallows(v.shallows)) + [Flush]
  {
    Concat5(Parts(v));
  }

  /** The output opens with one packet per prefix entry, in order: a
      flush-pkt for the empty entry, the entry and a newline for any other;
      the first line follows. */
  lemma PrefixLines(v: AdvRefs)
    ensures |v.prefix| < |Expected(v)|
    ensures forall i :: 0 <= i < |v.prefix| ==>
      Expected(v)[i] == (if v.prefix[i] == "" then Flush else Payload(v.prefix[i] + "\n"))
    ensures Expected(v)[|v.prefix|] == Payload(FirstLine(v))
  {
    ExpectedLayout(v);
  }

  /** The output closes with one "shallow <hash>" line per shallow, in
      ascending order of the hashes, then a flush-pkt. */
  lemma ShallowLines(v: AdvRefs)
    ensures var e := Expected(v); var n := |v.shallows|;
      && n < |e| && e[|e| - 1] == Flush
      && forall k :: 0 <= k < n ==> e[|e| - 1 - n + k] == Payload("shallow " + SortShallows(v.shallows)[k] + "\n")
    ensures Sorted(SortShallows(v.shallows)) && multiset(SortShallows(v.shallows)) == multiset(v.shallows)
  {
    ExpectedLayout(v);
    var e := Expected(v);
    var sh := ShallowPkts(SortShallows(v.shallows));
    var front := PrefixPkts(v.prefix) + [Payload(FirstLine(v))] + RefsPkts(v, SortedKeys(v.references));
    assert e == front + sh + [Flush];
    assert |sh| == |v.shallows| by {
      assert |multiset(SortShallows(v.shallows))| == |multiset(v.shallows)|;
    }
    forall k | 0 <= k < |v.shallows|
      ensures e[|e| - 1 - |v.shallows| + k] == Payload("shallow " + SortShallows(v.shallows)[k] + "\n")
    {
      assert e[|front| + k] == sh[k];
    }
  }

  lemma Concat5<T>(ps: seq<seq<T>>)
    requires |ps| == 5
    ensures Concat(ps) == ps[0] + ps[1] + ps[2] + ps[3] + ps[4]
  {
    assert ps[..4][..3] == ps[..3] && ps[..3][..2] == ps[..2] && ps[..2][..1] == ps[..1] && ps[..1][..0] == [];
    calc {
      Concat(ps);
      Concat(ps[..4]) + ps[4];
      Concat(ps[..3]) + ps[3] + ps[4];
      Concat(ps[..2]) + ps[2] + ps[3] + ps[4];
      Concat(ps[..1]) + ps[1] + ps[2] + ps[3] + ps[4];
      [] + ps[0] + ps[1] + ps[2] + ps[3] + ps[4];
    }
  }

  /** Every reference is listed once, in strictly ascending order of name. */
  lemma RefNamesAscending(m: map<string, string>)
    ensures StrictlySorted(SortedKeys(m))
    ensures forall k :: k in m <==> k in SortedKeys(m)
  {
    var r := SortedKeys(m);
    forall x ensures multiset(r)[x] <= 1 {
      assert multiset(r)[x] == multiset(m.Keys)[x];
    }
    SortedDistinctIsStrict(r);
    forall k ensures k in m <==> k in r {
      assert k in r <==> k in multiset(r);
    }
  }

  lemma {:induction false} RefsPktsAppend(v: AdvRefs, a: seq<string>, b: seq<string>)
    requires AllRefs(v, a) && AllRefs(v, b)
    ensures AllRefs(v, a + b)
    ensures RefsPkts(v, a + b) == RefsPkts(v, a) + RefsPkts(v, b)
    decreases |b|
  {
    assert AllRefs(v, a + b) by {
      forall i | 0 <= i < |a + b| ensures (a + b)[i] in v.references {
        if i >= |a| { assert (a + b)[i] == b[i - |a|]; }
      }
    }
    if b == [] {
      assert a + b == a;
    } else {
      var c := b[..|b| - 1];
      assert (a + b)[..|a + b| - 1] == a + c;
      assert AllRefs(v, c) by {
        forall i | 0 <= i < |c| ensures c[i] in v.references { assert c[i] == b[i]; }
      }
      RefsPktsAppend(v, a, c);
    }
  }

  /** A reference's peeled line, when it has one, comes right after its own
      line: the packets of the names before it, its group, then the rest. */
  lemma RefsPktsSplit(v: AdvRefs, names: seq<string>, k: nat)
    requires AllRefs(v, names) && k < |names|
    ensures RefsPkts(v, names) ==
      RefsPkts(v, names[..k]) + RefGroup(v, names[k]) + RefsPkts(v, names[k + 1..])
  {
    var a := names[..k];
    var b := names[k + 1..];
    assert names == a + [names[k]] + b;
    assert AllRefs(v, a) && AllRefs(v, [names[k]]) && AllRefs(v, b) by {
      forall i | 0 <= i < |b| ensures b[i] in v.references { assert b[i] == names[k + 1 + i]; }
    }
    RefsPktsAppend(v, a, [names[k]]);
    RefsPktsAppend(v, a + [names[k]], b);
    assert [names[k]][..0] == [];
    assert RefsPkts(v, [names[k]]) == [] + RefGroup(v, names[k]);
  }

  /** Every packet of the reference section is the line of a listed name, or
      the peeled line of a listed name that has a peeled value, right after
      that name's own line: no peeled line is written for a name that is not
      a reference. */
  lemma {:induction false} RefsPktsShape(v: AdvRefs, names: seq<string>, j: nat)
    requires AllRefs(v, names) && j < |RefsPkts(v, names)|
    ensures var p := RefsPkts(v, names)[j];
      exists k :: 0 <= k < |names| &&
        (p == RefLine(names[k], v.references[names[k]]) ||
         (names[k] in v.peeled && p == PeeledLine(names[k], v.peeled[names[k]]) &&
          0 < j && RefsPkts(v, names)[j - 1] == RefLine(names[k], v.references[names[k]])))
    decreases |names|
  {
    var init := names[..|names| - 1];
    var last := names[|names| - 1];
    assert AllRefs(v, init) by {
      forall i | 0 <= i < |init| ensures init[i] in v.references { assert init[i] == names[i]; }
    }
    var front := RefsPkts(v, init);
    var g := RefGroup(v, last);
    var all := RefsPkts(v, names);
    assert all == front + g;
    if j < |front| {
      RefsPktsShape(v, init, j);
      var k :| 0 <= k < |init| &&
        (front[j] == RefLine(init[k], v.references[init[k]]) ||
         (init[k] in v.peeled && front[j] == PeeledLine(init[k], v.peeled[init[k]]) &&
          0 < j && front[j - 1] == RefLine(init[k], v.references[init[k]])));
      assert init[k] == names[k];
      assert all[j] == front[j];
      if 0 < j { assert all[j - 1] == front[j - 1]; }
    } else {
      var k := |names| - 1;
      assert names[k] == last;
      if j > |front| {
        assert all[j - 1] == g[0];
      }
    }
  }

  /** The order in which capability names were added does not change the
      first line; each name's values keep their own order. */
  lemma CapsOrderFree(a: Capabilities, b: Capabilities)
    requires multiset(a.order) == multiset(b.order) && a.values == b.values
    ensures FormatCaps(Some(a)) == FormatCaps(Some(b))
  {
    SortedUnique(SortStrings(a.order), SortStrings(b.order));
    CapsEntriesSameValues(a, b, SortStrings(a.order));
  }

  lemma {:induction false} CapsEntriesSameValues(a: Capabilities, b: Capabilities, names: seq<string>)
    requires a.values == b.values
    ensures CapsEntries(a, names) == CapsEntries(b, names)
    decreases |names|
  {
    if names != [] {
      CapsEntriesSameValues(a, b, names[1..]);
    }
  }

  /** Nor does the order in which shallows are given change their lines. */
  lemma ShallowsOrderFree(a: seq<string>, b: seq<string>)
    requires multiset(a) == multiset(b)
    ensures ShallowPkts(SortShallows(a)) == ShallowPkts(SortShallows(b))
  {
    SortedUnique(SortShallows(a), SortShallows(b));
  }

  /** sortRefs: the map's names collected in iteration order, then sorted. */
  method SortRefs(m: map<string, string>) returns (names: seq<string>)
    ensures names == SortedKeys(m)
  {
    var ret: seq<string> := [];
    var keys := m.Keys;
    while keys != {}
      invariant multiset(ret) + multiset(keys) == multiset(m.Keys)
      decreases keys
    {
      var k :| k in keys;
      ret := ret + [k];
      keys := keys - {k};
    }
    names := SortStrings(ret);
    SortedUnique(names, SortedKeys(m));
  }

  /** An encoder writing to a stream, with the sticky error of its last write. */
  class Encoder {
    var data: AdvRefs
    const pe: PktWriter
    var err: Option<string>

    constructor (pe: PktWriter)
      ensures this.pe == pe && err == None
    {
      this.pe := pe;
      data := AdvRefs([], None, None, map[], map[], []);
      err := None;
    }

    /** Writes the packets in order; the first failing write stops it and its
        error is kept. */
    method WriteAll(pkts: seq<Pkt>) returns (ok: bool)
      modifies this, pe
      ensures data == old(data)
      ensures var r := WriteOut(pe.faults, old(pe.attempts), pkts);
        && pe.sent == old(pe.sent) + r.pkts && pe.attempts == old(pe.attempts) + r.attempts
        && ok == r.err.None?
        && err == (if pkts == [] then old(err) else r.err)
    {
      ghost var from := pe.attempts;
      WriteOutFirstFault(pe.faults, from, pkts);
      for i := 0 to |pkts|
        invariant data == old(data)
        invariant pe.sent == old(pe.sent) + pkts[..i] && pe.attempts == from + i
        invariant NoFault(pe.faults, from, i)
        invariant i > 0 ==> err == None
        invariant i == 0 ==> err == old(err)
      {
        err := pe.Write(pkts[i]);
        if err.Some? {
          assert FirstFault(pe.faults, from, |pkts|, i);
          return false;
        }
        assert pkts[..i + 1] == pkts[..i] + [pkts[i]];
      }
      assert pkts[..|pkts|] == pkts;
      return true;
    }

    /** Runs one state of the machine and returns the next one, Done on error. */
    method Step(s: Stage, ghost part: seq<Pkt>) returns (next: Stage)
      requires s != Done && part == StagePkts(data, s)
      modifies this, pe
      ensures data == old(data)
      ensures var r := WriteOut(pe.faults, old(pe.attempts), part);
        && pe.sent == old(pe.sent) + r.pkts && pe.attempts == old(pe.attempts) + r.attempts
        && next == (if r.err.None? then NextStage(s) else Done)
        && err == (if part == [] then old(err) else r.err)
    {
      var pkts: seq<Pkt>;
      match s {
        case PrefixStage =>
          pkts := PrefixPkts(data.prefix);
        case FirstLineStage =>
          pkts := [Payload(FormatHead(data.head) + " " + FormatSeparator(data.head) + "\0" + FormatCaps(data.capabilities) + "\n")];
        case RefsStage =>
          var names := SortRefs(data.references);
          pkts := RefsPkts(data, names);
        case ShallowStage =>
          pkts := ShallowPkts(SortShallows(data.shallows));
        case FlushStage =>
          pkts := [Flush];
      }
      var ok := WriteAll(pkts);
      next := if ok then NextStage(s) else Done;
    }

    /** Encodes `v`: the prefix, the first line, the references with their
        peeled values, the shallows and a flush-pkt, stopping at the first
        failing write, whose error it returns. */
    method Encode(v: AdvRefs) returns (result: Option<string>)
      modifies this, pe
      ensures data == v && result == err
      ensures var r := WriteOut(pe.faults, old(pe.attempts), Expected(v));
        pe.sent == old(pe.sent) + r.pkts && pe.attempts == old(pe.attempts) + r.attempts && result == r.err
      ensures NoFault(pe.faults, old(pe.attempts), |Expected(v)|) ==>
        pe.sent == old(pe.sent) + Expected(v) && pe.attempts == old(pe.attempts) + |Expected(v)| && result == None
      ensures forall n: nat :: FirstFault(pe.faults, old(pe.attempts), |Expected(v)|, n) ==>
        && pe.sent == old(pe.sent) + Expected(v)[..n]
        && pe.attempts == old(pe.attempts) + n + 1
        && result == Fault(pe.faults, old(pe.attempts) + n)
    {
      ghost var start, from := pe.sent, pe.attempts;
      WriteStages(v);
      SentOutcome(pe.faults, from, Expected(v), start, pe.sent, pe.attempts, err);
      return err;
    }

    /** Sets the data and runs the state machine over it. */
    method WriteStages(v: AdvRefs)
      modifies this, pe
      ensures data == v
      ensures var r := WriteOut(pe.faults, old(pe.attempts), Expected(v));
        pe.sent == old(pe.sent) + r.pkts && pe.attempts == old(pe.attempts) + r.attempts && err == r.err
    {
      data := v;
      PartsAt(v);
      RunStages(Parts(v));
    }

    /** The state machine, from the first state until Done. */
    method RunStages(ghost ps: seq<seq<Pkt>>)
      requires |ps| == 5 && ps[4] == [Flush]
      requires forall s :: s != Done ==> ps[Index(s)] == StagePkts(data, s)
      modifies this, pe
      ensures data == old(data)
      ensures var r := WriteOut(pe.faults, old(pe.attempts), Concat(ps));
        pe.sent == old(pe.sent) + r.pkts && pe.attempts == old(pe.attempts) + r.attempts && err == r.err
    {
      ghost var from := pe.attempts;
      ghost var start := pe.sent;
      var state := PrefixStage;
      assert ps[..0] == [];
      assert start + [] == start;
      while state != Done
        invariant data == old(data)
        invariant Progress(pe.faults, from, ps, start, state, pe.sent, pe.attempts, err)
        decreases Rank(state)
      {
        ghost var s := state;
        ghost var part := ps[Index(s)];
        ghost var sent0 := pe.sent;
        ghost var attempts0 := pe.attempts;
        state := Step(state, part);
        ProgressStep(pe.faults, from, ps, start, s, sent0, attempts0, state, pe.sent, pe.attempts, err);
      }
    }
  }

  /** Where the encoder stands after the states before `s` ran, from write
      attempt `from` on: at the start of `s` with no failure so far, or,
      once Done, at the outcome of writing all the parts. */
  ghost predicate Progress(faults: imap<nat, string>, from: nat, ps: seq<seq<Pkt>>, start: seq<Pkt>, s: Stage,
                           sent: seq<Pkt>, attempts: nat, err: Option<string>)
    requires |ps| == 5
  {
    if s != Done then
      var b := Concat(ps[..Index(s)]);
      NoFault(faults, from, |b|) && sent == start + b && attempts == from + |b|
    else
      var r := WriteOut(faults, from, Concat(ps));
      sent == start + r.pkts && attempts == from + r.attempts && err == r.err
  }

  /** One state of the machine keeps Progress. */
  lemma ProgressStep(faults: imap<nat, string>, from: nat, ps: seq<seq<Pkt>>, start: seq<Pkt>, s: Stage,
                     sent0: seq<Pkt>, attempts0: nat, next: Stage, sent: seq<Pkt>, attempts: nat, err: Option<string>)
    requires |ps| == 5 && ps[4] == [Flush] && s != Done
    requires Progress(faults, from, ps, start, s, sent0, attempts0, None)
    requires var r := WriteOut(faults, attempts0, ps[Index(s)]);
      && sent == sent0 + r.pkts && attempts == attempts0 + r.attempts
      && next == (if r.err.None? then NextStage(s) else Done)
      && (ps[Index(s)] != [] ==> err == r.err)
    ensures Progress(faults, from, ps, start, next, sent, attempts, err)
  {
    var i := Index(s);
    var r := WriteOut(faults, attempts0, ps[i]);
    ConcatSplit(ps, i);
    if r.err.None? && i < 4 {
      assert Index(next) == i + 1;
      ProgressOn(faults, from, start, Concat(ps[..i]), ps[i], sent0, attempts0, sent, attempts);
    } else {
      assert ps[i] != [];
      ProgressEnd(faults, from, start, Concat(ps[..i]), ps[i], Concat(ps[i + 1..]), sent0, attempts0, sent, attempts);
    }
  }

  /** The parts up to `i`, part `i`, and the parts after it. */
  lemma ConcatSplit<T>(ps: seq<seq<T>>, i: nat)
    requires i < |ps|
    ensures Concat(ps[..i + 1]) == Concat(ps[..i]) + ps[i]
    ensures Concat(ps) == Concat(ps[..i]) + (ps[i] + Concat(ps[i + 1..]))
    ensures i + 1 == |ps| ==> Concat(ps[i + 1..]) == []
  {
    assert ps[..i + 1][..i] == ps[..i];
    assert ps == ps[..i + 1] + ps[i + 1..];
    ConcatAppend(ps[..i + 1], ps[i + 1..]);
    AppendAssoc(Concat(ps[..i]), ps[i], Concat(ps[i + 1..]));
    if i + 1 == |ps| {
      assert ps[i + 1..] == [];
    }
  }

  lemma AppendAssoc<T>(a: seq<T>, b: seq<T>, c: seq<T>)
    ensures (a + b) + c == a + (b + c)
  {
  }

  /** A part written with no failure, not the last: the next part starts
      where it ended. */
  lemma ProgressOn(faults: imap<nat, string>, from: nat, start: seq<Pkt>, b: seq<Pkt>, part: seq<Pkt>,
                   sent0: seq<Pkt>, attempts0: nat, sent: seq<Pkt>, attempts: nat)
    requires NoFault(faults, from, |b|) && sent0 == start + b && attempts0 == from + |b|
    requires var r := WriteOut(faults, attempts0, part);
      r.err.None? && sent == sent0 + r.pkts && attempts == attempts0 + r.attempts
    ensures NoFault(faults, from, |b + part|) && sent == start + (b + part) && attempts == from + |b + part|
  {
    WriteOutFirstFault(faults, attempts0, part);
    NoFaultJoin(faults, from, |b|, |part|);
    AppendAssoc(start, b, part);
  }

  lemma NoFaultJoin(faults: imap<nat, string>, from: nat, m: nat, n: nat)
    requires NoFault(faults, from, m) && NoFault(faults, from + m, n)
    ensures NoFault(faults, from, m + n)
  {
  }

  /** A part whose write failed, or the last one: the whole output is
      written as far as it goes. */
  lemma ProgressEnd(faults: imap<nat, string>, from: nat, start: seq<Pkt>, b: seq<Pkt>, part: seq<Pkt>, rest: seq<Pkt>,
                    sent0: seq<Pkt>, attempts0: nat, sent: seq<Pkt>, attempts: nat)
    requires NoFault(faults, from, |b|) && sent0 == start + b && attempts0 == from + |b|
    requires var r := WriteOut(faults, attempts0, part);
      (r.err.Some? || rest == []) && sent == sent0 + r.pkts && attempts == attempts0 + r.attempts
    ensures var r := WriteOut(faults, attempts0, part); var w := WriteOut(faults, from, b + (part + rest));
      sent == start + w.pkts && attempts == from + w.attempts && w.err == r.err
  {
    WriteOutThree(faults, from, b, part, rest);
    AppendAssoc(start, b, WriteOut(faults, attempts0, part).pkts);
  }
}
