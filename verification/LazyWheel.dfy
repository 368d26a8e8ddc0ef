/**
 A file-like object over HTTP range requests (network/lazy_wheel.py): a local
 copy of a remote wheel that is filled in piece by piece.  The server is the
 constant `remote`; every contact with it may fail, also in the middle of a
 response body.
 */
module LazyWheel {
  import opened Basics
  import opened Intervals

  datatype Whence = FromStart | FromCurrent | FromEnd

  /** Sizes the local file accepts. */
  type ReadSize = x: int | -1 <= x witness -1

  /** What the ZIP reader may do to the object: it only seeks and reads. */
  datatype Call = SeekTo(offset: int, whence: Whence) | ReadUpTo(size: ReadSize)

  /** The bytes, the error of a request, or the ValueError of the local file. */
  datatype ReadResult = Got(bytes: seq<byte>) | RequestFailed | SizeRefused

  datatype ZipCheck = Accepted | Rejected | Unreachable

  ghost predicate Agrees(data: seq<byte>, remote: seq<byte>, left: seq<int>, right: seq<int>)
    requires |left| == |right| && |data| == |remote|
  {
    forall b :: 0 <= b < |data| && Covered(left, right, b) ==> data[b] == remote[b]
  }

  /** The local file once every recorded byte has been brought in from `remote`. */
  ghost function Filled(data: seq<byte>, remote: seq<byte>, left: seq<int>, right: seq<int>): (r: seq<byte>)
    requires |left| == |right| && |data| == |remote|
    ensures |r| == |data|
    ensures forall b :: 0 <= b < |r| ==> r[b] == if Covered(left, right, b) then remote[b] else data[b]
  {
    seq(|data|, b requires 0 <= b < |data| => if Covered(left, right, b) then remote[b] else data[b])
  }

  /** Up to `size` bytes at `pos`, all of them for a negative size, none past the end. */
  function Window(data: seq<byte>, pos: nat, size: int): (r: seq<byte>)
    ensures |r| == if pos >= |data| then 0 else if 0 <= size <= |data| - pos then size else |data| - pos
    ensures forall i :: 0 <= i < |r| ==> r[i] == data[pos + i]
  {
    if pos >= |data| then []
    else if size < 0 || pos + size > |data| then data[pos..]
    else data[pos..pos + size]
  }

  /** A plain file with these bytes: where a seek leads, None before the start ... */
  function SoughtFrom(pos: nat, length: nat, offset: int, whence: Whence): Option<nat> {
    var target := offset + match whence
                           case FromStart => 0
                           case FromCurrent => pos
                           case FromEnd => length;
    if target < 0 then None else Some(target)
  }

  /** ... what it replies to a call, nothing to a seek ... */
  function Reply(data: seq<byte>, pos: nat, call: Call): seq<byte> {
    if call.SeekTo? then [] else Window(data, pos, call.size)
  }

  /** ... where its cursor is after it ... */
  function After(data: seq<byte>, pos: nat, call: Call): nat {
    match call
    case SeekTo(offset, whence) =>
      var sought := SoughtFrom(pos, |data|, offset, whence);
      if sought.Some? then sought.value else pos
    case ReadUpTo(_) => pos + |Reply(data, pos, call)|
  }

  /** ... and where it is before the `k`th of a list of calls. */
  function Cursor(data: seq<byte>, pos: nat, calls: seq<Call>, k: nat): nat
    requires k <= |calls|
  {
    if k == 0 then pos else After(data, Cursor(data, pos, calls, k - 1), calls[k - 1])
  }

  /** The calls of the ZIP reader, and what was recorded before them. */
  datatype Session = Session(remote: seq<byte>, chunkSize: int, left: seq<int>, right: seq<int>, pos: nat, calls: seq<Call>) {
    ghost predicate Valid() { |left| == |right| && 0 < chunkSize }

    /** The cursor before the `k`th call. */
    function At(k: nat): nat
      requires k <= |calls|
    {
      Cursor(remote, pos, calls, k)
    }

    /** The bytes recorded by then. */
    ghost predicate Known(k: nat, b: int)
      requires Valid() && k <= |calls|
    {
      Covered(left, right, b) || exists j :: 0 <= j < k && Brings(calls[j], At(j), chunkSize, |remote|, b)
    }

    /** A read to the end is right where the rest is recorded or within the last chunk. */
    ghost predicate Answerable(k: nat)
      requires Valid() && k < |calls|
    {
      calls[k].ReadUpTo? && calls[k].size < 0 ==>
        forall b :: At(k) <= b < |remote| ==> |remote| - chunkSize <= b || Known(k, b)
    }

    /** What a plain file replies to the `k`th call, if that can be answered. */
    ghost predicate Right(k: nat, reply: seq<byte>)
      requires Valid() && k < |calls|
    {
      Answerable(k) ==> reply == Reply(remote, At(k), calls[k])
    }

    /** Every reply so far is the one of a plain file. */
    ghost predicate Served(replies: seq<seq<byte>>)
      requires Valid()
    {
      |replies| <= |calls| && (replies != [] ==>
        var k := |replies| - 1;
        Served(replies[..k]) && Right(k, replies[k]))
    }

    lemma ServedMore(replies: seq<seq<byte>>, reply: seq<byte>)
      requires Valid() && Served(replies) && |replies| < |calls| && Right(|replies|, reply)
      ensures Served(replies + [reply])
    {
      assert (replies + [reply])[..|replies|] == replies;
    }

    lemma {:induction false} ServedIsRight(replies: seq<seq<byte>>, k: nat)
      requires Valid()
      ensures Served(replies) && k < |replies| ==> Right(k, replies[k])
    {
      if k + 1 >= |replies| {
      } else {
        ServedIsRight(replies[..|replies| - 1], k);
      }
    }

    lemma KnownMore(k: nat, b: int)
      requires Valid() && k < |calls|
      ensures Known(k + 1, b) <==> Known(k, b) || Brings(calls[k], At(k), chunkSize, |remote|, b)
    {
    }

    /** Behind a suffix recorded in full every call can be answered. */
    lemma SuffixAnswerable(start: int, k: nat)
      requires Valid() && k < |calls| && start <= At(k)
      requires forall b :: start <= b < |remote| ==> Covered(left, right, b)
      ensures Answerable(k)
    {
    }
  }

  /** What a call brings in: nothing for a seek. */
  predicate Brings(call: Call, pos: nat, chunkSize: int, length: nat, b: int)
    requires 0 < chunkSize
  {
    call.ReadUpTo? && var (start, end) := Wanted(pos, call.size, chunkSize, length); start <= b <= end
  }

  /**
   The books of a run without a failed request: the ranges asked for are
   disjoint, hold exactly the recorded bytes, and add up to them.
   */
  ghost predicate Accounted(requests: seq<Range>, left: seq<int>, right: seq<int>)
    requires |left| == |right|
  {
    && (forall k :: 0 <= k < |requests| ==> requests[k].0 <= requests[k].1)
    && (forall j, k :: 0 <= j < k < |requests| ==>
          requests[j].1 < requests[k].0 || requests[k].1 < requests[j].0)
    && (forall b :: InSome(requests, b) <==> Covered(left, right, b))
    && Bytes(requests) == Size(left, right)
  }

  /** Fetching only what was missing keeps the books straight. */
  lemma {:induction false} AccountedAfter(requests: seq<Range>, needed: seq<Range>,
                       left: seq<int>, right: seq<int>, l: seq<int>, r: seq<int>)
    requires |left| == |right| && |l| == |r|
    requires Accounted(requests, left, right) && Ascending(needed)
    requires forall b :: InSome(needed, b) ==> !Covered(left, right, b)
    requires forall b :: Covered(l, r, b) <==> Covered(left, right, b) || InSome(needed, b)
    requires Size(l, r) == Size(left, right) + Bytes(needed)
    ensures Accounted(requests + needed, l, r)
  {
    BytesConcat(requests, needed);
    forall b ensures InSome(requests + needed, b) <==> Covered(l, r, b) {
      InSomeConcat(requests, needed, b);
    }
    forall j, k | 0 <= j < |requests| && 0 <= k < |needed|
      ensures requests[j].1 < needed[k].0 || needed[k].1 < requests[j].0
    {
      DisjointRanges(requests, needed, j, k);
    }
  }

  /** In a run without a failed request no byte is fetched twice, nor more than the file has. */
  lemma NothingFetchedTwice(requests: seq<Range>, left: seq<int>, right: seq<int>, length: nat)
    requires WellFormed(left, right, length) && Accounted(requests, left, right)
    ensures Bytes(requests) == |CoveredBytes(left, right, length)| <= length
  {
    SizeCountsBytes(left, right, length);
  }

  lemma DisjointRanges(a: seq<Range>, c: seq<Range>, j: nat, k: nat)
    requires j < |a| && k < |c| && a[j].0 <= a[j].1 && c[k].0 <= c[k].1
    requires forall b :: InSome(c, b) ==> !InSome(a, b)
    ensures a[j].1 < c[k].0 || c[k].1 < a[j].0
  {
    var b := if a[j].0 <= c[k].0 then c[k].0 else a[j].0;
    if a[j].0 <= b <= a[j].1 && c[k].0 <= b <= c[k].1 {
      assert InSome(c, b) && InSome(a, b);
    }
  }

  /** `data` is `was` with the ranges in `done` taken from `remote`. */
  ghost predicate Patched(was: seq<byte>, data: seq<byte>, remote: seq<byte>, done: seq<Range>) {
    && |was| == |data| == |remote|
    && forall b :: 0 <= b < |was| ==> data[b] == if InSome(done, b) then remote[b] else was[b]
  }

  lemma PatchedFurther(was: seq<byte>, before: seq<byte>, data: seq<byte>, remote: seq<byte>,
                       done: seq<Range>, range: Range)
    requires Patched(was, before, remote, done) && |data| == |was|
    requires forall b :: 0 <= b < |data| ==>
               data[b] == if range.0 <= b <= range.1 then remote[b] else before[b]
    ensures Patched(was, data, remote, done + [range])
  {
    forall b | 0 <= b < |was| ensures data[b] == if InSome(done + [range], b) then remote[b] else was[b] {
      InSomeConcat(done, [range], b);
      if range.0 <= b <= range.1 { assert [range][0].0 <= b <= [range][0].1; }
    }
  }

  /** Some bytes of the ranges may have arrived; nothing outside them has changed. */
  ghost predicate PartlyPatched(was: seq<byte>, data: seq<byte>, remote: seq<byte>, ranges: seq<Range>) {
    && |was| == |data| == |remote|
    && forall b :: 0 <= b < |was| ==> data[b] == was[b] || (InSome(ranges, b) && data[b] == remote[b])
  }

  lemma PatchedPartly(was: seq<byte>, before: seq<byte>, data: seq<byte>, remote: seq<byte>,
                      done: seq<Range>, gaps: seq<Range>)
    requires Patched(was, before, remote, done) && |data| == |was|
    requires done < gaps
    requires var (s, e) := gaps[|done|];
             forall b :: 0 <= b < |data| ==> data[b] == before[b] || (data[b] == remote[b] && s <= b <= e)
    ensures PartlyPatched(was, data, remote, gaps)
  {
    forall b | 0 <= b < |was| ensures data[b] == was[b] || (InSome(gaps, b) && data[b] == remote[b]) {
      InSomeConcat(done, gaps[|done|..], b);
      assert done + gaps[|done|..] == gaps;
    }
  }

  /** What was recorded or has just been fetched is right, and the rest is untouched. */
  lemma PatchedIsFilled(was: seq<byte>, data: seq<byte>, remote: seq<byte>, needed: seq<Range>,
                        left: seq<int>, right: seq<int>, l: seq<int>, r: seq<int>)
    requires |left| == |right| && |l| == |r| && Patched(was, data, remote, needed)
    requires Agrees(was, remote, left, right)
    requires forall b :: Covered(l, r, b) <==> Covered(left, right, b) || InSome(needed, b)
    ensures data == Filled(was, remote, l, r)
    ensures Agrees(data, remote, l, r)
  {
  }

  /** A failed download has spoilt no recorded byte. */
  lemma PartlyPatchedAgrees(was: seq<byte>, data: seq<byte>, remote: seq<byte>, needed: seq<Range>,
                            left: seq<int>, right: seq<int>)
    requires |left| == |right| && PartlyPatched(was, data, remote, needed)
    requires Agrees(was, remote, left, right)
    ensures Agrees(data, remote, left, right)
  {
  }

  /** Python's `range(start, end, step)`. */
  function Steps(start: nat, end: int, step: int): (r: seq<nat>)
    requires 0 < step
    ensures forall k :: 0 <= k < |r| ==> start <= r[k] < end
    ensures start < end ==> r != [] && r[0] == start && end <= r[|r| - 1] + step
    ensures forall k :: 0 <= k < |r| - 1 ==> r[k + 1] == r[k] + step
    decreases end - start
  {
    if start < end then [start] + Steps(start + step, end, step) else []
  }

  /** Where every byte of a window is recorded, the local copy serves it. */
  lemma WindowFrom(data: seq<byte>, remote: seq<byte>, left: seq<int>, right: seq<int>, pos: nat, size: int)
    requires |left| == |right| && |data| == |remote| && Agrees(data, remote, left, right)
    requires forall b :: pos <= b < |data| && (size < 0 || b < pos + size) ==> Covered(left, right, b)
    ensures Window(data, pos, size) == Window(remote, pos, size)
  {
  }

  /**
   What `read` downloads: never less than a chunk, shifted back where the end
   of the file would cut it short, so that what is returned is within it
   unless the size is negative.
   */
  function Wanted(pos: nat, size: int, chunkSize: int, length: nat): (r: Range)
    requires 0 < chunkSize
    ensures Requestable(r.0, r.1, length)
    ensures size >= 0 && pos < length ==> r.0 <= pos && (r.1 == length - 1 || pos + size <= r.1 + 1)
    ensures size >= 0 ==> r.1 == if pos + size >= length || pos + chunkSize >= length then length - 1
                                 else pos + (if size < chunkSize then chunkSize else size) - 1
    ensures size < 0 ==> r.1 == length - 1 && (r.0 == length - chunkSize || (r.0 == 0 && length < chunkSize))
    ensures r.1 - r.0 + 1 == if length < chunkSize || length < size then length
                             else if size < chunkSize then chunkSize else size
  {
    var downloadSize := if size < chunkSize then chunkSize else size;
    var stop := if size < 0 || pos + downloadSize > length then length else pos + downloadSize;
    (if stop < downloadSize then 0 else stop - downloadSize, stop - 1)
  }

  /** With a negative size only the last chunk is fetched, but everything up to the end is returned. */
  ghost predicate TailKnown(left: seq<int>, right: seq<int>, pos: nat, chunkSize: int, length: nat)
    requires |left| == |right|
  {
    forall b :: pos <= b < length ==> length - chunkSize <= b || Covered(left, right, b)
  }

  /**
   `read(-1)` is right for every remote file that agrees with what has been
   downloaded if and only if the unread rest is recorded already or fits in
   one chunk.  `l` and `r` are the lists after the last chunk was fetched.
   */
  lemma ReadToEndExact(data: seq<byte>, left: seq<int>, right: seq<int>,
                       l: seq<int>, r: seq<int>, pos: nat, chunkSize: int)
    requires |left| == |right| && |l| == |r| && 0 < chunkSize
    requires var (start, end) := Wanted(pos, -1, chunkSize, |data|);
             forall b :: Covered(l, r, b) <==> Covered(left, right, b) || start <= b <= end
    ensures (forall remote: seq<byte> | |remote| == |data| && Agrees(data, remote, left, right) ::
               Window(Filled(data, remote, l, r), pos, -1) == Window(remote, pos, -1))
       <==> TailKnown(left, right, pos, chunkSize, |data|)
  {
    if TailKnown(left, right, pos, chunkSize, |data|) {
      forall remote: seq<byte> | |remote| == |data| && Agrees(data, remote, left, right)
        ensures Window(Filled(data, remote, l, r), pos, -1) == Window(remote, pos, -1)
      {
        var f := Filled(data, remote, l, r);
        if pos < |data| {
          assert forall b :: pos <= b < |data| ==> f[b] == remote[b];
          assert f[pos..] == remote[pos..];
        }
      }
    } else {
      var b :| pos <= b < |data| && b < |data| - chunkSize && !Covered(left, right, b);
      var remote := data[b := if data[b] == 0 then 1 else 0];
      assert Agrees(data, remote, left, right);
      var f := Filled(data, remote, l, r);
      assert Window(f, pos, -1)[b - pos] == f[b] == data[b] != remote[b] == Window(remote, pos, -1)[b - pos];
    }
  }

  lemma GapsInside(gaps: seq<Range>, start: int, end: int)
    requires forall k :: 0 <= k < |gaps| ==> gaps[k].0 <= gaps[k].1
    requires forall b :: InSome(gaps, b) ==> start <= b <= end
    ensures forall k :: 0 <= k < |gaps| ==> start <= gaps[k].0 <= gaps[k].1 <= end
  {
    forall k | 0 <= k < |gaps| ensures start <= gaps[k].0 <= gaps[k].1 <= end {
      assert InSome(gaps, gaps[k].0) && InSome(gaps, gaps[k].1);
    }
  }

  /** One turn of the generator. */
  lemma GapsStep(i: int, e: int, ls: seq<int>, rs: seq<int>, k: nat, done: seq<Range>)
    requires |ls| == |rs| && k < |ls|
    ensures done + Gaps(i, e, ls[k..], rs[k..])
         == (if ls[k] > i then done + [(i, ls[k] - 1)] else done) + Gaps(rs[k] + 1, e, ls[k + 1..], rs[k + 1..])
  {
    assert ls[k..][1..] == ls[k + 1..] && rs[k..][1..] == rs[k + 1..];
    assert ls[k..][0] == ls[k] && rs[k..][0] == rs[k];
  }

  /** The generator of the intervals to be fetched, up to the splice after its last yield. */
  method Merge(s: int, e: int, ls: seq<int>, rs: seq<int>) returns (gaps: seq<Range>)
    requires |ls| == |rs|
    ensures gaps == Gaps(s, e, ls, rs)
  {
    gaps := [];
    var i, k := s, 0;
    while k < |ls|
      invariant k <= |ls|
      invariant Gaps(s, e, ls, rs) == gaps + Gaps(i, e, ls[k..], rs[k..])
    {
      GapsStep(i, e, ls, rs, k, gaps);
      if ls[k] > i {
        gaps := gaps + [(i, ls[k] - 1)];
      }
      i, k := rs[k] + 1, k + 1;
    }
    if i <= e {
      gaps := gaps + [(i, e)];
    }
  }

  class LazyZip {
    const remote: seq<byte>
    const chunkSize: int
    const length: nat
    const flaky: bool  // whether requests may fail
    const file: array<byte>
    var left: seq<int>
    var right: seq<int>
    var pos: nat
    ghost var requests: seq<Range>
    ghost var faulted: bool

    ghost predicate Valid()
      reads this, file
    {
      && |remote| == length == file.Length
      && 0 < chunkSize
      && WellFormed(left, right, length)
      && Agrees(file[..], remote, left, right)
      && (!faulted ==> Accounted(requests, left, right))
    }

    /** The object before `_check_zip`: truncated to size, nothing recorded. */
    constructor (remote: seq<byte>, chunkSize: int, flaky: bool)
      requires 0 < chunkSize
      ensures Valid() && fresh(file)
      ensures this.remote == remote && this.chunkSize == chunkSize && this.flaky == flaky
      ensures left == [] && right == [] && pos == 0 && !faulted && requests == []
    {
      this.remote, this.chunkSize, this.flaky, length := remote, chunkSize, flaky, |remote|;
      file := new byte[|remote|](_ => 0);
      left, right, pos := [], [], 0;
      requests, faulted := [], false;
    }

    /** Positions before the start of the file are refused and change nothing. */
    method Seek(offset: int, whence: Whence) returns (r: Option<nat>)
      requires Valid()
      modifies this`pos
      ensures Valid()
      ensures r == SoughtFrom(old(pos), length, offset, whence)
      ensures pos == if r.Some? then r.value else old(pos)
      ensures whence.FromStart? ==> r == if offset < 0 then None else Some(offset)
      ensures whence.FromCurrent? ==> r == if old(pos) + offset < 0 then None else Some(old(pos) + offset)
      ensures whence.FromEnd? ==> r == if length + offset < 0 then None else Some(length + offset)
    {
      var target := offset;
      match whence {
        case FromStart =>
        case FromCurrent => target := target + pos;
        case FromEnd => target := target + length;
      }
      if target < 0 { return None; }
      pos := target;
      r := Some(pos);
    }

    /**
     One range request, written chunk by chunk at the cursor.  It may fail
     before the body or between two chunks; only the range is ever touched.
     */
    method Fetch(start: nat, end: nat) returns (ok: bool)
      requires |remote| == length == file.Length && 0 < chunkSize
      requires start <= end < length
      modifies this`pos, this`requests, this`faulted, file
      ensures requests == old(requests) + [(start, end)]
      ensures faulted == (old(faulted) || !ok) && (!flaky ==> ok)
      ensures forall b :: 0 <= b < length && !(start <= b <= end) ==> file[b] == old(file[b])
      ensures ok ==> forall b :: start <= b <= end ==> file[b] == remote[b]
      ensures !ok ==> forall b :: start <= b <= end ==> file[b] == remote[b] || file[b] == old(file[b])
    {
      requests := requests + [(start, end)];
      ok := *;
      ok := ok || !flaky;
      if !ok {
        faulted := true;
        return;
      }
      pos := start;
      while pos <= end
        invariant start <= pos <= end + 1
        invariant requests == old(requests) + [(start, end)] && faulted == old(faulted)
        invariant forall b :: 0 <= b < length ==>
                    file[b] == if start <= b < pos then remote[b] else old(file[b])
      {
        ok := *;
        ok := ok || !flaky;
        if !ok {
          faulted := true;
          return;
        }
        var size: nat :| 1 <= size <= chunkSize && pos + size <= end + 1;
        forall k | pos <= k < pos + size { file[k] := remote[k]; }
        pos := pos + size;
      }
      ok := true;
    }

    /** One turn of the download loop: the gap of `gaps` that follows the first `n`. */
    method FetchNext(ghost was: seq<byte>, gaps: seq<Range>, n: nat) returns (ok: bool)
      requires |remote| == length == file.Length && 0 < chunkSize
      requires n < |gaps| && 0 <= gaps[n].0 <= gaps[n].1 < length
      requires Patched(was, file[..], remote, gaps[..n])
      modifies this`pos, this`requests, this`faulted, file
      ensures requests == old(requests) + [gaps[n]]
      ensures faulted == (old(faulted) || !ok) && (!flaky ==> ok)
      ensures ok ==> Patched(was, file[..], remote, gaps[..n + 1])
      ensures !ok ==> PartlyPatched(was, file[..], remote, gaps)
    {
      ghost var before := file[..];
      ok := Fetch(gaps[n].0, gaps[n].1);
      if ok {
        PatchedFurther(was, before, file[..], remote, gaps[..n], gaps[n]);
        assert gaps[..n] + [gaps[n]] == gaps[..n + 1];
      } else {
        PatchedPartly(was, before, file[..], remote, gaps[..n], gaps);
      }
    }

    method FetchAll(gaps: seq<Range>) returns (ok: bool)
      requires |remote| == length == file.Length && 0 < chunkSize
      requires forall k :: 0 <= k < |gaps| ==> 0 <= gaps[k].0 <= gaps[k].1 < length
      modifies this`pos, this`requests, this`faulted, file
      ensures faulted == (old(faulted) || !ok) && (!flaky ==> ok)
      ensures old(requests) <= requests && (ok ==> requests == old(requests) + gaps)
      ensures ok ==> Patched(old(file[..]), file[..], remote, gaps)
      ensures !ok ==> PartlyPatched(old(file[..]), file[..], remote, gaps)
    {
      ghost var was := file[..];
      var n := 0;
      while n < |gaps|
        invariant n <= |gaps|
        invariant faulted == old(faulted) && requests == old(requests) + gaps[..n]
        invariant Patched(was, file[..], remote, gaps[..n])
      {
        ok := FetchNext(was, gaps, n);
        if !ok { return; }
        n := n + 1;
      }
      assert gaps[..n] == gaps;
      ok := true;
    }

    /**
     Downloads `start..end` inclusively.  The lists are spliced only once the
     last gap has arrived, so a failure leaves them as they were; the cursor
     is put back in any case.
     */
    method Download(start: int, end: int) returns (ok: bool)
      requires Valid() && Requestable(start, end, length)
      modifies this`left, this`right, this`pos, this`requests, this`faulted, file
      ensures Valid() && pos == old(pos) && faulted == (old(faulted) || !ok) && (!flaky ==> ok)
      ensures ok ==> forall b :: Covered(left, right, b) <==> old(Covered(left, right, b)) || start <= b <= end
      ensures ok ==> file[..] == Filled(old(file[..]), remote, left, right)
      ensures old(requests) <= requests && (ok ==> requests == old(requests + Needed(left, right, start, end)))
      ensures !ok ==> left == old(left) && right == old(right)
      ensures !ok ==> PartlyPatched(old(file[..]), file[..], remote, old(Needed(left, right, start, end)))
    {
      var position := pos;
      var from, to := From(right, start), To(left, end);
      var ls, rs := Slice(left, from, to), Slice(right, from, to);
      var s, e := HullStart(ls, start), HullEnd(rs, end);
      ghost var was, needed := file[..], Needed(left, right, start, end);
      OverlapSpans(left, right, start, end, length);
      NeededIsMissing(left, right, start, end, length);
      SpliceCovers(left, right, start, end, length);
      var gaps := Merge(s, e, ls, rs);
      GapsInside(gaps, start, end);
      ok := FetchAll(gaps);
      pos := position;
      if ok {
        left, right := Splice(left, from, to, s), Splice(right, from, to, e);
        PatchedIsFilled(was, file[..], remote, needed, old(left), old(right), left, right);
        if !faulted {
          AccountedAfter(old(requests), needed, old(left), old(right), left, right);
        }
      } else {
        PartlyPatchedAgrees(was, file[..], remote, needed, left, right);
      }
    }

    /** Brings in what a read at the cursor is to return. */
    method Prepare(size: int) returns (ok: bool)
      requires Valid()
      modifies this`left, this`right, this`pos, this`requests, this`faulted, file
      ensures Valid() && pos == old(pos) && faulted == (old(faulted) || !ok) && (!flaky ==> ok)
      ensures !ok ==> left == old(left) && right == old(right)
      ensures ok ==> file[..] == Filled(old(file[..]), remote, left, right)
      ensures var (start, end) := Wanted(old(pos), size, chunkSize, length);
              ok ==> requests == old(requests) + Needed(old(left), old(right), start, end)
                     && forall b :: Covered(left, right, b) <==> old(Covered(left, right, b)) || start <= b <= end
      ensures old(requests) <= requests
      ensures ok && (size >= 0 || old(TailKnown(left, right, pos, chunkSize, length))) ==>
                Window(file[..], pos, size) == Window(remote, pos, size)
    {
      var (start, end) := Wanted(pos, size, chunkSize, length);
      ok := Download(start, end);
      if ok && (size >= 0 || old(TailKnown(left, right, pos, chunkSize, length))) {
        WindowFrom(file[..], remote, left, right, pos, size);
      }
    }

    /**
     Up to `size` bytes from the cursor.  A size of -1 asks for everything up
     to the end; what it returns where nothing was recorded is whatever the
     local file holds (`ReadToEndExact`).  Sizes below that are refused, but
     only once the last chunk is there.
     */
    method Read(size: int) returns (r: ReadResult)
      requires Valid()
      modifies this`left, this`right, this`pos, this`requests, this`faulted, file
      ensures Valid() && faulted == (old(faulted) || r.RequestFailed?) && (!flaky ==> !r.RequestFailed?)
      ensures !r.RequestFailed? ==> (r.SizeRefused? <==> size < -1)
      ensures r.RequestFailed? ==> left == old(left) && right == old(right)
      ensures pos == if r.Got? then old(pos) + |r.bytes| else old(pos)
      ensures r.Got? && size >= 0 ==> r.bytes == Window(remote, old(pos), size)
      ensures r.Got? && size >= 0 ==>
                && |r.bytes| == (if old(pos) >= length then 0 else if size <= length - old(pos) then size else length - old(pos))
                && forall i :: 0 <= i < |r.bytes| ==> r.bytes[i] == remote[old(pos) + i]
      ensures r.Got? && size < 0 ==> r.bytes == Window(file[..], old(pos), -1)
      ensures r.Got? && size < 0 && old(TailKnown(left, right, pos, chunkSize, length)) ==>
                r.bytes == if old(pos) < length then remote[old(pos)..] else []
      ensures old(requests) <= requests
      ensures !r.RequestFailed? ==> file[..] == Filled(old(file[..]), remote, left, right)
      ensures var (start, end) := Wanted(old(pos), size, chunkSize, length);
              !r.RequestFailed? ==>
                && requests == old(requests) + Needed(old(left), old(right), start, end)
                && forall b :: Covered(left, right, b) <==> old(Covered(left, right, b)) || start <= b <= end
    {
      var ok := Prepare(size);
      if !ok { return RequestFailed; }
      if size < -1 { return SizeRefused; }
      var data := Window(file[..], pos, size);
      pos := pos + |data|;
      r := Got(data);
    }

    /** One call of the ZIP reader. */
    method Serve(call: Call) returns (r: Option<seq<byte>>)
      requires Valid()
      modifies this`left, this`right, this`pos, this`requests, this`faulted, file
      ensures Valid() && faulted == (old(faulted) || r.None?) && (!flaky ==> r.Some?)
      ensures old(requests) <= requests
      ensures r.None? ==> left == old(left) && right == old(right)
      ensures r.Some? ==>
                forall b :: Covered(left, right, b) <==>
                              old(Covered(left, right, b)) || Brings(call, old(pos), chunkSize, length, b)
      ensures pos == if r.Some? then After(remote, old(pos), call) else old(pos)
      ensures r.Some? && (call.SeekTo? || call.size >= 0 || old(TailKnown(left, right, pos, chunkSize, length))) ==>
                r.value == Reply(remote, old(pos), call)
    {
      match call {
        case SeekTo(offset, whence) =>
          var _ := Seek(offset, whence);
          r := Some([]);
        case ReadUpTo(size) =>
          var reply := Read(size);
          r := if reply.Got? then Some(reply.bytes) else None;
      }
    }

    ghost function SessionOf(calls: seq<Call>): Session
      reads this
    {
      Session(remote, chunkSize, left, right, pos, calls)
    }

    /**
     The constructor of the ZIP reader: any sequence of seeks and reads.  Until
     a request fails the object replies as a plain copy of the remote file
     would, reads to the end included where what they fetch is enough.
     */
    method OpenAsZip(calls: seq<Call>) returns (ok: bool, replies: seq<seq<byte>>)
      requires Valid()
      modifies this`left, this`right, this`pos, this`requests, this`faulted, file
      ensures Valid() && faulted == (old(faulted) || !ok) && (!flaky ==> ok) && old(requests) <= requests
      ensures var session := old(SessionOf(calls));
              && session.Valid() && session.Served(replies) && (ok ==> |replies| == |calls|)
              && pos == session.At(|replies|)
              && forall b :: Covered(left, right, b) <==> session.Known(|replies|, b)
    {
      ghost var session := SessionOf(calls);
      replies := [];
      for k := 0 to |calls|
        invariant Valid() && faulted == old(faulted) && old(requests) <= requests
        invariant |replies| == k && session.Served(replies) && pos == session.At(k)
        invariant forall b :: Covered(left, right, b) <==> session.Known(k, b)
      {
        ghost var known := TailKnown(left, right, pos, chunkSize, length);
        var reply := Serve(calls[k]);
        if reply.None? { return false, replies; }
        assert session.Answerable(k) ==> calls[k].SeekTo? || calls[k].size >= 0 || known;
        session.ServedMore(replies, reply.value);
        forall b ensures Covered(left, right, b) <==> session.Known(k + 1, b) { session.KnownMore(k, b); }
        replies := replies + [reply.value];
      }
      ok := true;
    }

    /** Everything from `start` on is recorded. */
    ghost predicate Complete(start: int)
      reads this
      requires |left| == |right|
    {
      forall b :: start <= b < length ==> Covered(left, right, b)
    }

    /** The suffixes tried, in the order of `range(0, end, chunk_size)`. */
    function Starts(): seq<nat>
      requires 0 < chunkSize
    {
      Steps(0, length - 1, chunkSize)
    }

    /** One attempt: the suffix from `start`, then the ZIP reader, with the cursor put back. */
    method TrySuffix(start: nat) returns (r: ZipCheck)
      requires Valid() && start < length
      modifies this`left, this`right, this`pos, this`requests, this`faulted, file
      ensures Valid() && pos == old(pos) && faulted == (old(faulted) || r.Unreachable?) && (!flaky ==> !r.Unreachable?)
      ensures forall b :: old(Covered(left, right, b)) ==> Covered(left, right, b)
      ensures !r.Unreachable? ==> Complete(start)
      ensures !r.Unreachable? ==> old(requests + Needed(left, right, start, length - 1)) <= requests
    {
      var ok := Download(start, length - 1);
      if !ok { return Unreachable; }
      var position := pos;
      var calls: seq<Call> := *;
      var readable, _ := OpenAsZip(calls);
      pos := position;
      if !readable { return Unreachable; }
      var isZip: bool := *;
      r := if isZip then Accepted else Rejected;
    }

    /**
     Fetches ever longer suffixes until the ZIP reader is content.  Whatever
     it reads on the way, a rejection means the whole file is here by then;
     an acceptance happens with some suffix recorded in full.
     */
    method CheckZip() returns (r: ZipCheck)
      requires Valid()
      modifies this`left, this`right, this`pos, this`requests, this`faulted, file
      ensures Valid() && pos == old(pos) && faulted == (old(faulted) || r.Unreachable?) && (!flaky ==> !r.Unreachable?)
      ensures forall b :: old(Covered(left, right, b)) ==> Covered(left, right, b)
      ensures r.Rejected? && length >= 2 ==> Complete(0) && file[..] == remote
      ensures r.Accepted? ==> exists k :: 0 <= k < |Starts()| && Complete(Starts()[k])
      ensures !r.Unreachable? && Starts() != [] ==>
                old(requests + Needed(left, right, Starts()[|Starts()| - 1], length - 1)) <= requests
    {
      var starts := Starts();
      var k := |starts|;
      while k > 0
        invariant 0 <= k <= |starts|
        invariant Valid() && pos == old(pos) && faulted == old(faulted)
        invariant forall b :: old(Covered(left, right, b)) ==> Covered(left, right, b)
        invariant k < |starts| ==> Complete(starts[k])
        invariant if k == |starts| then left == old(left) && right == old(right) && requests == old(requests)
                  else old(requests + Needed(left, right, starts[|starts| - 1], length - 1)) <= requests
      {
        k := k - 1;
        r := TrySuffix(starts[k]);
        if !r.Rejected? { return; }
      }
      r := Rejected;
    }
  }
}
