/**
 The interval arithmetic behind the sparse local copy of a remote file:
 which bytes two parallel lists record, and which byte ranges are still to be
 fetched for a request.  An interval `i` is the closed range
 `left[i]..right[i]`.
 */
module Intervals {

  type Range = (int, int)

  /** The index of the first element that is not below `x` (bisect_left). */
  function BisectLeft(a: seq<int>, x: int): (r: nat)
    ensures r <= |a|
    ensures forall j :: 0 <= j < r ==> a[j] < x
    ensures r < |a| ==> x <= a[r]
  {
    if a == [] || x <= a[0] then 0 else 1 + BisectLeft(a[1..], x)
  }

  /** The index of the first element above `x` (bisect_right). */
  function BisectRight(a: seq<int>, x: int): (r: nat)
    ensures r <= |a|
    ensures forall j :: 0 <= j < r ==> a[j] <= x
    ensures r < |a| ==> x < a[r]
  {
    if a == [] || x < a[0] then 0 else 1 + BisectRight(a[1..], x)
  }

  /**
   The shape of the two lists at all times: in bounds, ascending and disjoint.
   Only an empty file has empty intervals: its first read records (0, -1).
   */
  ghost predicate WellFormed(left: seq<int>, right: seq<int>, length: nat) {
    && |left| == |right|
    && (forall i :: 0 <= i < |left| ==> 0 <= left[i] && left[i] - 1 <= right[i] < length)
    && (length > 0 ==> forall i :: 0 <= i < |left| ==> left[i] <= right[i])
    && (forall i, j :: 0 <= i < j < |left| ==> right[i] < left[j])
  }

  ghost predicate Covered(left: seq<int>, right: seq<int>, b: int)
    requires |left| == |right|
  {
    exists i :: 0 <= i < |left| && left[i] <= b <= right[i]
  }

  ghost predicate InSome(ranges: seq<Range>, b: int) {
    exists k :: 0 <= k < |ranges| && ranges[k].0 <= b <= ranges[k].1
  }

  /** Bytes in a list of ranges, counted with multiplicity. */
  function Bytes(ranges: seq<Range>): int {
    if ranges == [] then 0 else ranges[0].1 - ranges[0].0 + 1 + Bytes(ranges[1..])
  }

  /** Bytes recorded by the two lists. */
  function Size(left: seq<int>, right: seq<int>): int
    requires |left| == |right|
  {
    if left == [] then 0 else right[0] - left[0] + 1 + Size(left[1..], right[1..])
  }

  lemma {:induction false} BytesConcat(a: seq<Range>, b: seq<Range>)
    ensures Bytes(a + b) == Bytes(a) + Bytes(b)
  {
    if a == [] {
      assert a + b == b;
    } else {
      assert (a + b)[1..] == a[1..] + b;
      BytesConcat(a[1..], b);
    }
  }

  lemma {:induction false} SizeConcat(l1: seq<int>, r1: seq<int>, l2: seq<int>, r2: seq<int>)
    requires |l1| == |r1| && |l2| == |r2|
    ensures Size(l1 + l2, r1 + r2) == Size(l1, r1) + Size(l2, r2)
  {
    if l1 == [] {
      assert l1 + l2 == l2 && r1 + r2 == r2;
    } else {
      assert (l1 + l2)[1..] == l1[1..] + l2 && (r1 + r2)[1..] == r1[1..] + r2;
      SizeConcat(l1[1..], r1[1..], l2, r2);
    }
  }

  /** What the merge generator yields while it walks the overlapped intervals from `i`. */
  function Gaps(i: int, end: int, ls: seq<int>, rs: seq<int>): seq<Range>
    requires |ls| == |rs|
    decreases ls
  {
    if ls == [] then
      if i <= end then [(i, end)] else []
    else
      (if ls[0] > i then [(i, ls[0] - 1)] else []) + Gaps(rs[0] + 1, end, ls[1..], rs[1..])
  }

  /** Non-empty, ascending, and never adjacent: each range is a whole hole. */
  ghost predicate Ascending(ranges: seq<Range>) {
    && (forall k :: 0 <= k < |ranges| ==> ranges[k].0 <= ranges[k].1)
    && (forall j, k :: 0 <= j < k < |ranges| ==> ranges[j].1 + 1 < ranges[k].0)
  }

  /** A stretch `i..end` that starts at or before the intervals in it and ends after them. */
  ghost predicate Spans(i: int, end: int, ls: seq<int>, rs: seq<int>) {
    && |ls| == |rs|
    && i <= end + 1
    && (forall k :: 0 <= k < |ls| ==> i <= ls[k] <= rs[k] <= end)
    && (forall j, k :: 0 <= j < k < |ls| ==> rs[j] < ls[k])
  }

  /** The gaps are exactly the unrecorded bytes of the stretch, as maximal runs in order. */
  lemma GapsAreHoles(i: int, end: int, ls: seq<int>, rs: seq<int>)
    requires Spans(i, end, ls, rs)
    ensures Ascending(Gaps(i, end, ls, rs))
    ensures forall b :: InSome(Gaps(i, end, ls, rs), b) <==> i <= b <= end && !Covered(ls, rs, b)
  {
    GapsAscend(i, end, ls, rs);
    forall b ensures InSome(Gaps(i, end, ls, rs), b) <==> i <= b <= end && !Covered(ls, rs, b) {
      GapMembership(i, end, ls, rs, b);
    }
  }

  lemma TailSpans(i: int, end: int, ls: seq<int>, rs: seq<int>)
    requires Spans(i, end, ls, rs) && ls != []
    ensures Spans(rs[0] + 1, end, ls[1..], rs[1..])
  {
  }

  lemma {:induction false} GapMembership(i: int, end: int, ls: seq<int>, rs: seq<int>, b: int)
    requires Spans(i, end, ls, rs)
    ensures InSome(Gaps(i, end, ls, rs), b) <==> i <= b <= end && !Covered(ls, rs, b)
    decreases ls
  {
    if ls == [] {
      if i <= b <= end { assert Gaps(i, end, ls, rs)[0].0 <= b; }
    } else {
      var rest := Gaps(rs[0] + 1, end, ls[1..], rs[1..]);
      TailSpans(i, end, ls, rs);
      GapMembership(rs[0] + 1, end, ls[1..], rs[1..], b);
      CoveredCons(ls, rs, b);
      if Covered(ls[1..], rs[1..], b) { RecordedInside(rs[0] + 1, end, ls[1..], rs[1..], b); }
      if ls[0] > i {
        InSomeCons((i, ls[0] - 1), rest, b);
      } else {
        assert Gaps(i, end, ls, rs) == rest;
      }
    }
  }

  lemma RecordedInside(i: int, end: int, ls: seq<int>, rs: seq<int>, b: int)
    requires Spans(i, end, ls, rs) && Covered(ls, rs, b)
    ensures i <= b <= end
  {
  }

  lemma InSomeCons(r: Range, rest: seq<Range>, b: int)
    ensures InSome([r] + rest, b) <==> r.0 <= b <= r.1 || InSome(rest, b)
  {
    InSomeConcat([r], rest, b);
    if r.0 <= b <= r.1 { assert [r][0].0 <= b <= [r][0].1; }
  }

  lemma CoveredCons(ls: seq<int>, rs: seq<int>, b: int)
    requires |ls| == |rs| && ls != []
    ensures Covered(ls, rs, b) <==> ls[0] <= b <= rs[0] || Covered(ls[1..], rs[1..], b)
  {
    assert ls == [ls[0]] + ls[1..] && rs == [rs[0]] + rs[1..];
    CoveredConcat([ls[0]], [rs[0]], ls[1..], rs[1..], b);
    if ls[0] <= b <= rs[0] { assert [ls[0]][0] <= b <= [rs[0]][0]; }
  }

  lemma {:induction false} GapsAscend(i: int, end: int, ls: seq<int>, rs: seq<int>)
    requires Spans(i, end, ls, rs)
    ensures Ascending(Gaps(i, end, ls, rs))
    ensures forall k :: 0 <= k < |Gaps(i, end, ls, rs)| ==> i <= Gaps(i, end, ls, rs)[k].0
    decreases ls
  {
    if ls == [] {
    } else {
      GapsAscend(rs[0] + 1, end, ls[1..], rs[1..]);
    }
  }

  lemma InSomeConcat(a: seq<Range>, c: seq<Range>, b: int)
    ensures InSome(a + c, b) <==> InSome(a, b) || InSome(c, b)
  {
    var s := a + c;
    if InSome(a, b) {
      var k :| 0 <= k < |a| && a[k].0 <= b <= a[k].1;
      assert s[k] == a[k];
    }
    if InSome(c, b) {
      var k :| 0 <= k < |c| && c[k].0 <= b <= c[k].1;
      assert s[|a| + k] == c[k];
    }
  }

  lemma CoveredConcat(l1: seq<int>, r1: seq<int>, l2: seq<int>, r2: seq<int>, b: int)
    requires |l1| == |r1| && |l2| == |r2|
    ensures Covered(l1 + l2, r1 + r2, b) <==> Covered(l1, r1, b) || Covered(l2, r2, b)
  {
    var l, r := l1 + l2, r1 + r2;
    if Covered(l1, r1, b) {
      var k :| 0 <= k < |l1| && l1[k] <= b <= r1[k];
      assert l[k] == l1[k] && r[k] == r1[k];
    }
    if Covered(l2, r2, b) {
      var k :| 0 <= k < |l2| && l2[k] <= b <= r2[k];
      assert l[|l1| + k] == l2[k] && r[|l1| + k] == r2[k];
    }
  }

  /** Gaps and overlapped intervals tile the stretch: no byte is missed or counted twice. */
  lemma {:induction false} GapsTile(i: int, end: int, ls: seq<int>, rs: seq<int>)
    requires Spans(i, end, ls, rs)
    ensures Bytes(Gaps(i, end, ls, rs)) + Size(ls, rs) == end - i + 1
    decreases ls
  {
    if ls == [] {
    } else {
      GapsTile(rs[0] + 1, end, ls[1..], rs[1..]);
      var rest := Gaps(rs[0] + 1, end, ls[1..], rs[1..]);
      if ls[0] > i {
        BytesConcat([(i, ls[0] - 1)], rest);
        assert Bytes([(i, ls[0] - 1)]) == ls[0] - i;
      } else {
        assert Gaps(i, end, ls, rs) == rest;
      }
    }
  }

  /** A request is for a range inside the file, or for nothing at all of an empty one. */
  predicate Requestable(start: int, end: int, length: nat) {
    && 0 <= start
    && start - 1 <= end < length
    && (length > 0 ==> start <= end)
  }

  /** The slice of recorded intervals a request overlaps: `from..to`. */
  function From(right: seq<int>, start: int): nat { BisectLeft(right, start) }

  function To(left: seq<int>, end: int): nat { BisectRight(left, end) }

  /** The two bisects are in order for every request in a non-empty file. */
  lemma BisectsInOrder(left: seq<int>, right: seq<int>, start: int, end: int, length: nat)
    requires WellFormed(left, right, length) && Requestable(start, end, length) && length > 0
    ensures From(right, start) <= To(left, end) <= |left|
    ensures forall k :: 0 <= k < |left| ==>
              (From(right, start) <= k < To(left, end) <==> left[k] <= end && start <= right[k])
  {
    var l, r := From(right, start), To(left, end);
    forall k | l <= k < |left| ensures start <= right[k] {
      if l < k { assert right[l] < left[k]; }
    }
    forall k | r <= k < |left| ensures end < left[k] {
      if r < k { assert left[r] <= right[r] < left[k]; }
    }
  }

  /** Python's `a[from:to]`, empty when the bounds cross. */
  function Slice(a: seq<int>, from: nat, to: nat): seq<int>
    requires from <= |a| && to <= |a|
  {
    if from <= to then a[from..to] else []
  }

  /** `a[from:to] = [x]`: crossed bounds insert at `from`. */
  function Splice(a: seq<int>, from: nat, to: nat, x: int): seq<int>
    requires from <= |a| && to <= |a|
  {
    a[..from] + [x] + (if from <= to then a[to..] else a[from..])
  }

  /** The start of the merged interval: `min([start] + lslice[:1])`. */
  function HullStart(ls: seq<int>, start: int): int {
    if ls != [] && ls[0] < start then ls[0] else start
  }

  /** The end of the merged interval: `max([end] + rslice[-1:])`. */
  function HullEnd(rs: seq<int>, end: int): int {
    if rs != [] && rs[|rs| - 1] > end then rs[|rs| - 1] else end
  }

  /** Everything a request for `start..end` still has to fetch. */
  function Needed(left: seq<int>, right: seq<int>, start: int, end: int): seq<Range>
    requires |left| == |right|
  {
    var from, to := From(right, start), To(left, end);
    var ls, rs := Slice(left, from, to), Slice(right, from, to);
    Gaps(HullStart(ls, start), HullEnd(rs, end), ls, rs)
  }

  /** The overlapped intervals lie inside the merged one, and the others outside it. */
  ghost predicate Separated(left: seq<int>, right: seq<int>, from: nat, hi: nat, s: int, e: int, length: nat)
    requires |left| == |right|
  {
    && from <= hi <= |left|
    && Requestable(s, e, length)
    && Spans(s, e, left[from..hi], right[from..hi])
    && (forall k :: 0 <= k < from ==> right[k] < s)
    && (forall k :: hi <= k < |left| ==> e < left[k])
  }

  /** Where the slice really ends: at `from` when the bounds cross. */
  function SliceEnd(from: nat, to: nat): nat { if from <= to then to else from }

  lemma OverlapSpans(left: seq<int>, right: seq<int>, start: int, end: int, length: nat)
    requires WellFormed(left, right, length) && Requestable(start, end, length)
    ensures var from, to := From(right, start), To(left, end);
            var ls, rs := Slice(left, from, to), Slice(right, from, to);
            var s, e := HullStart(ls, start), HullEnd(rs, end);
            && Separated(left, right, from, SliceEnd(from, to), s, e, length)
            && ls == left[from..SliceEnd(from, to)] && rs == right[from..SliceEnd(from, to)]
            && s <= start && end <= e
  {
    var from, to := From(right, start), To(left, end);
    if length > 0 {
      BisectsInOrder(left, right, start, end, length);
      OverlapInside(left, right, from, to, start, end, length);
      forall k | 0 <= k < from ensures right[k] < HullStart(left[from..to], start) {
        if from < to { assert right[k] < left[from]; }
      }
      forall k | to <= k < |left| ensures HullEnd(right[from..to], end) < left[k] {
        if from < to { assert right[to - 1] < left[k]; }
      }
    } else {
      EmptyFileOverlap(left, right, start, end);
    }
  }

  lemma OverlapInside(left: seq<int>, right: seq<int>, from: nat, to: nat, start: int, end: int, length: nat)
    requires WellFormed(left, right, length) && Requestable(start, end, length) && length > 0
    requires from <= to <= |left|
    requires forall k :: from <= k < to ==> left[k] <= end && start <= right[k]
    ensures var s, e := HullStart(left[from..to], start), HullEnd(right[from..to], end);
            Spans(s, e, left[from..to], right[from..to]) && Requestable(s, e, length)
  {
    var ls, rs := left[from..to], right[from..to];
    var s, e := HullStart(ls, start), HullEnd(rs, end);
    forall k | 0 <= k < |ls| ensures s <= ls[k] <= rs[k] <= e {
      assert left[from + k] <= right[from + k];
      assert left[to - 1] <= right[to - 1] && left[from] <= right[from];
      if 0 < k { assert right[from] < left[from + k]; }
      if from + k < to - 1 { assert right[from + k] < left[to - 1]; }
    }
  }

  lemma EmptyFileOverlap(left: seq<int>, right: seq<int>, start: int, end: int)
    requires WellFormed(left, right, 0) && Requestable(start, end, 0)
    ensures start == 0 && end == -1
    ensures forall k :: 0 <= k < |left| ==> left[k] == 0 && right[k] == -1
    ensures To(left, end) == 0 && From(right, start) == |left|
  {
    assert forall k :: 0 <= k < |left| ==> left[k] == 0 && right[k] == -1;
  }

  /** The fetched ranges are exactly the unrecorded bytes of the request, each once. */
  lemma NeededIsMissing(left: seq<int>, right: seq<int>, start: int, end: int, length: nat)
    requires WellFormed(left, right, length) && Requestable(start, end, length)
    ensures Ascending(Needed(left, right, start, end))
    ensures forall b :: InSome(Needed(left, right, start, end), b) <==>
                          start <= b <= end && !Covered(left, right, b)
  {
    var from, to := From(right, start), To(left, end);
    var hi := SliceEnd(from, to);
    var ls, rs := Slice(left, from, to), Slice(right, from, to);
    var s, e := HullStart(ls, start), HullEnd(rs, end);
    OverlapSpans(left, right, start, end, length);
    GapsAreHoles(s, e, ls, rs);
    forall b ensures s <= b <= e && !Covered(ls, rs, b) <==> start <= b <= end && !Covered(left, right, b) {
      if s <= b <= e {
        OnlyOverlapCovers(left, right, from, hi, s, e, length, b);
        if b < start {
          assert ls[0] <= b <= rs[0] by { assert ls[0] == left[from] && rs[0] == right[from]; HullIsCovered(left, right, start, end, length); }
        } else if end < b {
          assert ls[|ls| - 1] <= b <= rs[|rs| - 1] by { HullIsCovered(left, right, start, end, length); }
        }
      }
    }
  }

  /** What the merged interval adds beyond the request is already recorded. */
  lemma HullIsCovered(left: seq<int>, right: seq<int>, start: int, end: int, length: nat)
    requires WellFormed(left, right, length) && Requestable(start, end, length)
    ensures var ls := Slice(left, From(right, start), To(left, end));
            var rs := Slice(right, From(right, start), To(left, end));
            && |ls| == |rs|
            && (ls != [] ==> start <= rs[0] && ls[|ls| - 1] <= end)
  {
    if length > 0 {
      BisectsInOrder(left, right, start, end, length);
    } else {
      EmptyFileOverlap(left, right, start, end);
    }
  }

  lemma OnlyOverlapCovers(left: seq<int>, right: seq<int>, from: nat, hi: nat, s: int, e: int, length: nat, b: int)
    requires |left| == |right| && Separated(left, right, from, hi, s, e, length) && s <= b <= e
    ensures Covered(left[from..hi], right[from..hi], b) <==> Covered(left, right, b)
  {
    var ls, rs := left[from..hi], right[from..hi];
    if Covered(left, right, b) {
      var k :| 0 <= k < |left| && left[k] <= b <= right[k];
      assert from <= k < hi;
      assert ls[k - from] == left[k] && rs[k - from] == right[k];
    }
    if Covered(ls, rs, b) {
      var k :| 0 <= k < |ls| && ls[k] <= b <= rs[k];
      assert left[from + k] == ls[k] && right[from + k] == rs[k];
    }
  }

  /** Splicing the merged interval in keeps the shape and adds exactly the request. */
  lemma SpliceCovers(left: seq<int>, right: seq<int>, start: int, end: int, length: nat)
    requires WellFormed(left, right, length) && Requestable(start, end, length)
    ensures var from, to := From(right, start), To(left, end);
            var s := HullStart(Slice(left, from, to), start);
            var e := HullEnd(Slice(right, from, to), end);
            var l, r := Splice(left, from, to, s), Splice(right, from, to, e);
            && WellFormed(l, r, length)
            && (forall b :: Covered(l, r, b) <==> Covered(left, right, b) || start <= b <= end)
            && Size(l, r) == Size(left, right) + Bytes(Needed(left, right, start, end))
  {
    var from, to := From(right, start), To(left, end);
    var hi := SliceEnd(from, to);
    var ls, rs := Slice(left, from, to), Slice(right, from, to);
    var s, e := HullStart(ls, start), HullEnd(rs, end);
    OverlapSpans(left, right, start, end, length);
    SpliceShape(left, right, from, hi, s, e, length);
    GapsTile(s, e, ls, rs);
    SpliceSize(left, right, from, hi, s, e);
    GapsAreHoles(s, e, ls, rs);
    NeededIsMissing(left, right, start, end, length);
    forall b ensures Covered(Splice(left, from, to, s), Splice(right, from, to, e), b)
                <==> Covered(left, right, b) || start <= b <= end {
      SpliceCoverage(left, right, from, hi, s, e, b);
      if s <= b <= e { OnlyOverlapCovers(left, right, from, hi, s, e, length, b); }
    }
  }

  lemma SpliceShape(left: seq<int>, right: seq<int>, from: nat, hi: nat, s: int, e: int, length: nat)
    requires WellFormed(left, right, length) && Separated(left, right, from, hi, s, e, length)
    ensures WellFormed(left[..from] + [s] + left[hi..], right[..from] + [e] + right[hi..], length)
  {
    PrefixShape(left, right, from, s, e, length);
    AppendShape(left[..from] + [s], right[..from] + [e], left[hi..], right[hi..], length);
  }

  lemma PrefixShape(left: seq<int>, right: seq<int>, from: nat, s: int, e: int, length: nat)
    requires WellFormed(left, right, length) && from <= |left| && Requestable(s, e, length)
    requires forall k :: 0 <= k < from ==> right[k] < s
    ensures WellFormed(left[..from] + [s], right[..from] + [e], length)
  {
  }

  lemma AppendShape(l: seq<int>, r: seq<int>, l': seq<int>, r': seq<int>, length: nat)
    requires WellFormed(l, r, length) && WellFormed(l', r', length)
    requires forall j, k :: 0 <= j < |r| && 0 <= k < |l'| ==> r[j] < l'[k]
    ensures WellFormed(l + l', r + r', length)
  {
  }

  lemma SpliceSize(left: seq<int>, right: seq<int>, from: nat, hi: nat, s: int, e: int)
    requires |left| == |right| && from <= hi <= |left|
    ensures Size(left[..from] + [s] + left[hi..], right[..from] + [e] + right[hi..])
         == Size(left, right) - Size(left[from..hi], right[from..hi]) + e - s + 1
  {
    assert left == left[..from] + left[from..hi] + left[hi..];
    assert right == right[..from] + right[from..hi] + right[hi..];
    SizeOfThree(left[..from], right[..from], left[from..hi], right[from..hi], left[hi..], right[hi..]);
    SizeOfThree(left[..from], right[..from], [s], [e], left[hi..], right[hi..]);
  }

  lemma SizeOfThree(l1: seq<int>, r1: seq<int>, l2: seq<int>, r2: seq<int>, l3: seq<int>, r3: seq<int>)
    requires |l1| == |r1| && |l2| == |r2| && |l3| == |r3|
    ensures Size(l1 + l2 + l3, r1 + r2 + r3) == Size(l1, r1) + Size(l2, r2) + Size(l3, r3)
  {
    SizeConcat(l1, r1, l2, r2);
    SizeConcat(l1 + l2, r1 + r2, l3, r3);
  }

  lemma SpliceCoverage(left: seq<int>, right: seq<int>, from: nat, hi: nat, s: int, e: int, b: int)
    requires |left| == |right| && from <= hi <= |left|
    requires Spans(s, e, left[from..hi], right[from..hi])
    ensures Covered(left[..from] + [s] + left[hi..], right[..from] + [e] + right[hi..], b)
       <==> Covered(left, right, b) || s <= b <= e
  {
    CoveredConcat(left[..from] + [s], right[..from] + [e], left[hi..], right[hi..], b);
    CoveredConcat(left[..from], right[..from], [s], [e], b);
    CoveredConcat(left[..from], right[..from], left[from..], right[from..], b);
    CoveredConcat(left[from..hi], right[from..hi], left[hi..], right[hi..], b);
    assert left == left[..from] + left[from..] && right == right[..from] + right[from..];
    assert left[from..] == left[from..hi] + left[hi..] && right[from..] == right[from..hi] + right[hi..];
    if s <= b <= e { assert [s][0] <= b <= [e][0]; }
  }

  /** The bytes `lo`..`hi`, both included. */
  function RangeBytes(lo: int, hi: int): (r: set<int>)
    requires lo <= hi + 1
    ensures |r| == hi - lo + 1
    ensures forall b :: b in r <==> lo <= b <= hi
    decreases hi - lo
  {
    if lo > hi then {} else RangeBytes(lo, hi - 1) + {hi}
  }

  ghost function CoveredBytes(left: seq<int>, right: seq<int>, length: nat): set<int>
    requires |left| == |right|
  {
    set b | b in RangeBytes(0, length - 1) && Covered(left, right, b)
  }

  lemma CoveredBytesCons(left: seq<int>, right: seq<int>, length: nat)
    requires |left| == |right| && left != [] && 0 <= left[0] && left[0] - 1 <= right[0] < length
    ensures CoveredBytes(left, right, length)
         == RangeBytes(left[0], right[0]) + CoveredBytes(left[1..], right[1..], length)
  {
    var first, rest := RangeBytes(left[0], right[0]), CoveredBytes(left[1..], right[1..], length);
    forall b ensures b in CoveredBytes(left, right, length) <==> b in first + rest {
      CoveredCons(left, right, b);
    }
  }

  lemma TailWellFormed(left: seq<int>, right: seq<int>, length: nat)
    requires WellFormed(left, right, length) && left != []
    ensures WellFormed(left[1..], right[1..], length)
    ensures forall b :: Covered(left[1..], right[1..], b) ==> right[0] < b
  {
  }

  /** The size of the two lists is the number of recorded bytes, never more than the file has. */
  lemma {:induction false} SizeCountsBytes(left: seq<int>, right: seq<int>, length: nat)
    requires WellFormed(left, right, length)
    ensures Size(left, right) == |CoveredBytes(left, right, length)| <= length
    decreases |left|
  {
    if left == [] {
      assert CoveredBytes(left, right, length) == {};
    } else {
      TailWellFormed(left, right, length);
      SizeCountsBytes(left[1..], right[1..], length);
      CoveredBytesCons(left, right, length);
      assert RangeBytes(left[0], right[0]) !! CoveredBytes(left[1..], right[1..], length);
    }
    AtMostAll(left, right, length);
  }

  lemma AtMostAll(left: seq<int>, right: seq<int>, length: nat)
    requires |left| == |right|
    ensures |CoveredBytes(left, right, length)| <= length
  {
    var covered, all := CoveredBytes(left, right, length), RangeBytes(0, length - 1);
    assert all == covered + (all - covered);
  }
}
