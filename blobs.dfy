/** blobs.go of go-git: the Blob object and an iterator that keeps only the
    blobs of an underlying object iterator. Objects carry their type, hash
    and size; their content (Encode, Reader) is left out. */
module Blobs {
  import opened Wrappers
  import Git

  datatype ObjectType =
    | InvalidObject | CommitObject | TreeObject | BlobObject | TagObject | OFSDeltaObject | REFDeltaObject

  datatype Object = Object(typ: ObjectType, hash: string, size: int)

  /** What a ForEach callback is handed: the decoded blob's hash and size. */
  datatype BlobInfo = BlobInfo(hash: string, size: int)

  const ErrUnsupportedObject := "unsupported object type"
  /** io.EOF, which ends an iteration. */
  const EOF := "EOF"
  /** storer.ErrStop, which a callback returns to end an iteration early. */
  const ErrStop := "stop iter"

  class Blob {
    var hash: string
    var size: int
    var obj: Option<Object>

    /** The zero Blob. */
    constructor ()
      ensures hash == Git.ZeroHash && size == 0 && obj == None
    {
      hash := Git.ZeroHash;
      size := 0;
      obj := None;
    }

    /** The object ID always matches the Hash field. */
    function ID(): (h: string)
      reads this
      ensures h == hash
    {
      hash
    }

    function Type(): (t: ObjectType)
      ensures t == BlobObject
    {
      BlobObject
    }

    /** Takes hash and size from a blob object; refuses any other object
        type and then leaves the blob as it was. */
    method Decode(o: Object) returns (err: Option<string>)
      modifies this
      ensures o.typ != BlobObject ==> err == Some(ErrUnsupportedObject) && hash == old(hash) && size == old(size) && obj == old(obj)
      ensures o.typ == BlobObject ==> err == None && hash == o.hash && size == o.size && obj == Some(o)
      ensures o.typ == BlobObject ==> ID() == o.hash && Type() == o.typ
    {
      if o.typ != BlobObject {
        return Some(ErrUnsupportedObject);
      }
      hash := o.hash;
      size := o.size;
      obj := Some(o);
      return None;
    }
  }

  /** An object iterator (storer.ObjectIter) over a fixed series of results:
      an Err entry is a failure reported by the storage. */
  class ObjectIter {
    const items: seq<Result<Object>>
    var pos: nat

    predicate Valid()
      reads this
    {
      pos <= |items|
    }

    constructor (items: seq<Result<Object>>)
      ensures this.items == items && pos == 0 && Valid()
    {
      this.items := items;
      pos := 0;
    }

    /** The next entry, or io.EOF at the end. */
    method Next() returns (o: Result<Object>)
      requires Valid()
      modifies this
      ensures Valid()
      ensures old(pos) < |items| ==> o == items[old(pos)] && pos == old(pos) + 1
      ensures old(pos) == |items| ==> o == Err(EOF) && pos == old(pos)
    {
      if pos == |items| {
        return Err(EOF);
      }
      o := items[pos];
      pos := pos + 1;
    }

    /** After Close nothing more is yielded. */
    method Close()
      modifies this
      ensures pos == |items| && Valid()
    {
      pos := |items|;
    }
  }

  /** An entry at which BlobIter.Next stops: a failure or a blob. */
  predicate Stops(r: Result<Object>) {
    r.Err? || r.value.typ == BlobObject
  }

  /** The position of the first entry from `from` on at which Next stops, or
      the end of the series. */
  function NextStop(items: seq<Result<Object>>, from: nat): (k: nat)
    requires from <= |items|
    ensures from <= k <= |items|
    ensures k < |items| ==> Stops(items[k])
    ensures forall j :: from <= j < k ==> !Stops(items[j])
    decreases |items| - from
  {
    if from == |items| || Stops(items[from]) then from else NextStop(items, from + 1)
  }

  /** The outcome of a ForEach: its error and the blobs handed to the callback. */
  datatype Visited = Visited(err: Option<string>, seen: seq<BlobInfo>)

  /** ForEach over the entries still to come. */
  function ForEachSpec(items: seq<Result<Object>>, cb: BlobInfo -> Option<string>): Visited
    decreases |items|
  {
    if items == [] then Visited(None, [])
    else match items[0]
      case Err(e) => Visited(if e == EOF then None else Some(e), [])
      case Ok(o) =>
        if o.typ != BlobObject then ForEachSpec(items[1..], cb)
        else
          var b := BlobInfo(o.hash, o.size);
          var e := cb(b);
          if e.Some? then Visited(if e.value == ErrStop then None else e, [b])
          else
            var rest := ForEachSpec(items[1..], cb);
            Visited(rest.err, [b] + rest.seen)
  }

  /** Reference definitions: the blobs before the first failure, and that
      failure unless it is io.EOF. */
  function BlobsOf(items: seq<Result<Object>>): seq<BlobInfo> {
    if items == [] || items[0].Err? then []
    else
      var o := items[0].value;
      (if o.typ == BlobObject then [BlobInfo(o.hash, o.size)] else []) + BlobsOf(items[1..])
  }

  function Failure(items: seq<Result<Object>>): Option<string> {
    if items == [] then None
    else if items[0].Err? then (if items[0].error == EOF then None else Some(items[0].error))
    else Failure(items[1..])
  }

  predicate IsPrefix<T(==)>(a: seq<T>, b: seq<T>) {
    |a| <= |b| && b[..|a|] == a
  }

  /** The callback sees blobs only, in order: a prefix of the reference list. */
  lemma {:induction false} ForEachSeesBlobs(items: seq<Result<Object>>, cb: BlobInfo -> Option<string>)
    ensures IsPrefix(ForEachSpec(items, cb).seen, BlobsOf(items))
    decreases |items|
  {
    if items != [] && items[0].Ok? {
      var o := items[0].value;
      var tail := items[1..];
      ForEachSeesBlobs(tail, cb);
      if o.typ == BlobObject {
        var b := BlobInfo(o.hash, o.size);
        assert BlobsOf(items) == [b] + BlobsOf(tail);
        if cb(b).None? {
          var rest := ForEachSpec(tail, cb);
          assert ([b] + BlobsOf(tail))[..|[b] + rest.seen|] == [b] + BlobsOf(tail)[..|rest.seen|];
        }
      } else {
        assert BlobsOf(items) == BlobsOf(tail);
      }
    }
  }

  /** When neither the storage nor the callback fails, the callback sees
      every blob and ForEach succeeds. */
  lemma {:induction false} ForEachComplete(items: seq<Result<Object>>, cb: BlobInfo -> Option<string>)
    requires forall i :: 0 <= i < |BlobsOf(items)| ==> cb(BlobsOf(items)[i]).None?
    requires Failure(items).None?
    ensures ForEachSpec(items, cb) == Visited(None, BlobsOf(items))
    decreases |items|
  {
    if items != [] && items[0].Ok? {
      var o := items[0].value;
      var tail := items[1..];
      if o.typ == BlobObject {
        var b := BlobInfo(o.hash, o.size);
        assert BlobsOf(items) == [b] + BlobsOf(tail);
        assert cb(BlobsOf(items)[0]).None?;
        forall i | 0 <= i < |BlobsOf(tail)| ensures cb(BlobsOf(tail)[i]).None? {
          assert BlobsOf(tail)[i] == BlobsOf(items)[i + 1];
        }
      } else {
        assert BlobsOf(items) == BlobsOf(tail);
      }
      ForEachComplete(tail, cb);
    }
  }

  /** The callback accepted every blob it saw, except perhaps the last. */
  predicate AcceptedBeforeLast(seen: seq<BlobInfo>, cb: BlobInfo -> Option<string>) {
    forall k :: 0 <= k < |seen| - 1 ==> cb(seen[k]).None?
  }

  /** The callback refused the last blob it saw. */
  predicate RefusedLast(seen: seq<BlobInfo>, cb: BlobInfo -> Option<string>) {
    seen != [] && cb(seen[|seen| - 1]).Some?
  }

  /** The callback accepted every blob it saw but the last. If it refused
      the last, ForEach returns its error (none for ErrStop); otherwise the
      callback saw every blob before the storage's first failure, and that
      failure is the error (none for io.EOF or the end). */
  lemma {:induction false} ForEachError(items: seq<Result<Object>>, cb: BlobInfo -> Option<string>)
    ensures AcceptedBeforeLast(ForEachSpec(items, cb).seen, cb)
    ensures var r := ForEachSpec(items, cb);
      RefusedLast(r.seen, cb) ==>
        r.err == (if cb(r.seen[|r.seen| - 1]) == Some(ErrStop) then None else cb(r.seen[|r.seen| - 1]))
    ensures var r := ForEachSpec(items, cb);
      !RefusedLast(r.seen, cb) ==> r.seen == BlobsOf(items) && r.err == Failure(items)
    decreases |items|
  {
    if items != [] && items[0].Ok? {
      var o := items[0].value;
      var tail := items[1..];
      assert Failure(items) == Failure(tail);
      if o.typ != BlobObject {
        ForEachError(tail, cb);
        assert ForEachSpec(items, cb) == ForEachSpec(tail, cb);
        assert BlobsOf(items) == BlobsOf(tail);
      } else {
        var b := BlobInfo(o.hash, o.size);
        if cb(b).None? {
          var rest := ForEachSpec(tail, cb);
          ForEachError(tail, cb);
          AcceptedCons(b, rest.seen, cb);
          assert ForEachSpec(items, cb) == Visited(rest.err, [b] + rest.seen);
          assert BlobsOf(items) == [b] + BlobsOf(tail);
        } else {
          assert ForEachSpec(items, cb).seen == [b];
        }
      }
    }
  }

  /** A blob the callback accepted, put in front of what it saw next. */
  lemma AcceptedCons(b: BlobInfo, seen: seq<BlobInfo>, cb: BlobInfo -> Option<string>)
    requires cb(b).None? && AcceptedBeforeLast(seen, cb)
    ensures AcceptedBeforeLast([b] + seen, cb)
    ensures RefusedLast([b] + seen, cb) <==> RefusedLast(seen, cb)
    ensures seen != [] ==> ([b] + seen)[|seen|] == seen[|seen| - 1]
  {
    var s := [b] + seen;
    forall k | 0 <= k < |s| - 1 ensures cb(s[k]).None? {
      if k > 0 { assert s[k] == seen[k - 1]; }
    }
  }

  /** A blob iterator over an object iterator. */
  class BlobIter {
    const iter: ObjectIter

    constructor (iter: ObjectIter)
      ensures this.iter == iter
    {
      this.iter := iter;
    }

    /** Skips non-blob objects and returns the first blob, decoded; a storage
        failure, io.EOF at the end included, is returned as it is. */
    method Next() returns (blob: Blob?, err: Option<string>)
      requires iter.Valid()
      modifies iter
      ensures iter.Valid()
      ensures var k := NextStop(iter.items, old(iter.pos));
        && (k == |iter.items| ==> blob == null && err == Some(EOF) && iter.pos == k)
        && (k < |iter.items| && iter.items[k].Err? ==> blob == null && err == Some(iter.items[k].error) && iter.pos == k + 1)
        && (k < |iter.items| && iter.items[k].Ok? ==>
              blob != null && fresh(blob) && err == None && iter.pos == k + 1
              && blob.hash == iter.items[k].value.hash && blob.size == iter.items[k].value.size
              && blob.obj == Some(iter.items[k].value))
    {
      while true
        invariant iter.Valid() && old(iter.pos) <= iter.pos
        invariant NextStop(iter.items, iter.pos) == NextStop(iter.items, old(iter.pos))
        decreases |iter.items| - iter.pos
      {
        var o := iter.Next();
        if o.Err? {
          return null, Some(o.error);
        }
        if o.value.typ != BlobObject {
          continue;
        }
        blob := new Blob();
        err := blob.Decode(o.value);
        return;
      }
    }

    /** Hands every blob to the callback, in order, until the storage or the
        callback fails; ErrStop ends the walk without an error. The iterator
        is closed afterwards. */
    method ForEach(cb: BlobInfo -> Option<string>) returns (err: Option<string>, seen: seq<BlobInfo>)
      requires iter.Valid()
      modifies iter
      ensures Visited(err, seen) == ForEachSpec(old(iter.items[iter.pos..]), cb)
      ensures iter.pos == |iter.items|
    {
      ghost var start := iter.items[iter.pos..];
      seen := [];
      while true
        invariant iter.Valid()
        invariant var r := ForEachSpec(iter.items[iter.pos..], cb);
          ForEachSpec(start, cb) == Visited(r.err, seen + r.seen)
        decreases |iter.items| - iter.pos
      {
        ghost var before := iter.items[iter.pos..];
        var o := iter.Next();
        if o.Err? {
          iter.Close();
          err := if o.error == EOF then None else Some(o.error);
          assert seen + [] == seen;
          return;
        }
        assert before[1..] == iter.items[iter.pos..];
        if o.value.typ != BlobObject {
          continue;
        }
        var blob := new Blob();
        var derr := blob.Decode(o.value);
        assert derr == None;
        var info := BlobInfo(blob.hash, blob.size);
        var e := cb(info);
        if e.Some? {
          iter.Close();
          err := if e.value == ErrStop then None else e;
          seen := seen + [info];
          return;
        }
        assert seen + ([info] + ForEachSpec(iter.items[iter.pos..], cb).seen)
            == (seen + [info]) + ForEachSpec(iter.items[iter.pos..], cb).seen;
        seen := seen + [info];
      }
    }
  }
}
