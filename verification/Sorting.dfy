/**
 Python's `sorted(key=...)` and `max(key=...)` on tuples of preferences: a
 stable ascending sort and the first maximum.
 */
module Sorting {
  import Names

  /** `()` or `(number, suffix)`; the empty tuple sorts first. */
  datatype BuildTag = NoBuild | Build(number: int, suffix: string)

  datatype Key = Key(allowedHash: int, yank: int, binary: int, version: int, priority: int, build: BuildTag)

  predicate BuildLess(a: BuildTag, b: BuildTag) {
    b.Build? && (a.NoBuild? || a.number < b.number
                 || (a.number == b.number && a.suffix != b.suffix && Names.Leq(a.suffix, b.suffix)))
  }

  /** Tuples compare by their first difference. */
  predicate Less(a: Key, b: Key) {
    if a.allowedHash != b.allowedHash then a.allowedHash < b.allowedHash
    else if a.yank != b.yank then a.yank < b.yank
    else if a.binary != b.binary then a.binary < b.binary
    else if a.version != b.version then a.version < b.version
    else if a.priority != b.priority then a.priority < b.priority
    else BuildLess(a.build, b.build)
  }

  lemma BuildLessIsOrder(a: BuildTag, b: BuildTag, c: BuildTag)
    ensures BuildLess(a, b) || BuildLess(b, a) || a == b
    ensures !(BuildLess(a, b) && BuildLess(b, a)) && !BuildLess(a, a)
    ensures BuildLess(a, b) && BuildLess(b, c) ==> BuildLess(a, c)
  {
    if a.Build? && b.Build? {
      Names.LeqTotal(a.suffix, b.suffix);
      if c.Build? && Names.Leq(a.suffix, b.suffix) && Names.Leq(b.suffix, c.suffix) {
        Names.LeqTransitive(a.suffix, b.suffix, c.suffix);
      }
    }
  }

  /** The comparison is a strict total order, so maxima exist and keys decide them. */
  lemma LessIsOrder(a: Key, b: Key, c: Key)
    ensures Less(a, b) || Less(b, a) || a == b
    ensures !(Less(a, b) && Less(b, a)) && !Less(a, a)
    ensures Less(a, b) && Less(b, c) ==> Less(a, c)
    ensures !Less(b, a) && !Less(c, b) ==> !Less(c, a)
  {
    BuildLessIsOrder(a.build, b.build, c.build);
    BuildLessIsOrder(c.build, a.build, b.build);
  }

  ghost predicate Ascending<T(!new)>(s: seq<T>, key: T -> Key) {
    forall i, j :: 0 <= i < j < |s| ==> !Less(key(s[j]), key(s[i]))
  }

  /** The elements with key `k`, in order. */
  function Class<T(!new)>(s: seq<T>, key: T -> Key, k: Key): (r: seq<T>)
    ensures forall x :: x in r <==> x in s && key(x) == k
  {
    if s == [] then []
    else if key(s[0]) == k then [s[0]] + Class(s[1..], key, k)
    else Class(s[1..], key, k)
  }

  /** `t` is `s` sorted, with equal keys in the order they had. */
  ghost predicate IsStableSort<T(!new)>(s: seq<T>, t: seq<T>, key: T -> Key) {
    Ascending(t, key) && forall k :: Class(s, key, k) == Class(t, key, k)
  }

  /** Before every element that is not less preferred. */
  function Insert<T(!new)>(x: T, s: seq<T>, key: T -> Key): (r: seq<T>)
    ensures |r| == |s| + 1
    ensures forall y :: y in r <==> y == x || y in s
  {
    if s == [] then [x]
    else if Less(key(s[0]), key(x)) then [s[0]] + Insert(x, s[1..], key)
    else [x] + s
  }

  function StableSort<T(!new)>(s: seq<T>, key: T -> Key): (r: seq<T>)
    ensures |r| == |s|
    ensures forall y :: y in r <==> y in s
  {
    if s == [] then [] else Insert(s[0], StableSort(s[1..], key), key)
  }

  lemma {:induction false} InsertAscending<T(!new)>(x: T, s: seq<T>, key: T -> Key)
    requires Ascending(s, key)
    ensures Ascending(Insert(x, s, key), key)
  {
    if s == [] {
    } else {
      if Less(key(s[0]), key(x)) {
        InsertAscending(x, s[1..], key);
        var rest := Insert(x, s[1..], key);
        forall j | 0 <= j < |rest| ensures !Less(key(rest[j]), key(s[0])) {
          assert rest[j] in rest;
          LessIsOrder(key(s[0]), key(x), key(x));
        }
      } else {
        forall j | 0 <= j < |s| ensures !Less(key(s[j]), key(x)) {
          LessIsOrder(key(x), key(s[0]), key(s[j]));
          LessIsOrder(key(s[0]), key(s[0]), key(s[0]));
        }
      }
    }
  }

  lemma {:induction false} InsertClass<T(!new)>(x: T, s: seq<T>, key: T -> Key, k: Key)
    ensures Class(Insert(x, s, key), key, k) == if key(x) == k then [x] + Class(s, key, k) else Class(s, key, k)
  {
    if s != [] && Less(key(s[0]), key(x)) {
      InsertClass(x, s[1..], key, k);
      LessIsOrder(key(x), key(x), key(x));
      var rest := Insert(x, s[1..], key);
      assert Insert(x, s, key)[1..] == rest;
    } else {
      assert Insert(x, s, key)[1..] == s;
    }
  }

  lemma {:induction false} StableSortIsStable<T(!new)>(s: seq<T>, key: T -> Key)
    ensures IsStableSort(s, StableSort(s, key), key)
  {
    if s == [] {
    } else {
      StableSortIsStable(s[1..], key);
      InsertAscending(s[0], StableSort(s[1..], key), key);
      forall k ensures Class(s, key, k) == Class(StableSort(s, key), key, k) {
        InsertClass(s[0], StableSort(s[1..], key), key, k);
      }
    }
  }

  /** Index `i` holds the first of the greatest. */
  ghost predicate IsFirstMax<T(!new)>(s: seq<T>, key: T -> Key, i: int) {
    && 0 <= i < |s|
    && (forall j :: 0 <= j < i ==> Less(key(s[j]), key(s[i])))
    && (forall j :: i < j < |s| ==> !Less(key(s[i]), key(s[j])))
  }

  function MaxIndex<T(!new)>(s: seq<T>, key: T -> Key): (r: nat)
    requires s != []
    ensures r < |s|
  {
    if |s| == 1 then 0
    else
      var n := |s| - 1;
      var m := MaxIndex(s[..n], key);
      if Less(key(s[m]), key(s[n])) then n else m
  }

  lemma {:induction false} MaxIndexIsFirstMax<T(!new)>(s: seq<T>, key: T -> Key)
    requires s != []
    ensures IsFirstMax(s, key, MaxIndex(s, key))
  {
    if |s| == 1 {
    } else {
      var n := |s| - 1;
      MaxIndexIsFirstMax(s[..n], key);
      var m := MaxIndex(s[..n], key);
      forall j | 0 <= j < n ensures Less(key(s[m]), key(s[n])) ==> Less(key(s[j]), key(s[n])) {
        assert s[..n][j] == s[j];
        LessIsOrder(key(s[j]), key(s[m]), key(s[n]));
        LessIsOrder(key(s[n]), key(s[m]), key(s[j]));
        LessIsOrder(key(s[j]), key(s[n]), key(s[m]));
      }
    }
  }

  lemma {:induction false} HeadOfClass<T(!new)>(s: seq<T>, key: T -> Key, i: nat)
    requires i < |s| && forall j :: 0 <= j < i ==> key(s[j]) != key(s[i])
    ensures Class(s, key, key(s[i])) != [] && Class(s, key, key(s[i]))[0] == s[i]
  {
    if i == 0 {
    } else {
      HeadOfClass(s[1..], key, i - 1);
    }
  }

  lemma FirstMaxBounds<T(!new)>(s: seq<T>, key: T -> Key, i: nat, x: T)
    requires IsFirstMax(s, key, i) && x in s
    ensures !Less(key(s[i]), key(x))
  {
    var j :| 0 <= j < |s| && s[j] == x;
    LessIsOrder(key(s[j]), key(s[i]), key(s[i]));
  }

  /** Sorting first does not change which element is the first maximum. */
  lemma StableSortKeepsFirstMax<T(!new)>(s: seq<T>, t: seq<T>, key: T -> Key, i: nat, j: nat)
    requires IsStableSort(s, t, key) && IsFirstMax(s, key, i) && IsFirstMax(t, key, j)
    ensures t[j] == s[i]
  {
    assert t[j] in Class(t, key, key(t[j])) && s[i] in Class(s, key, key(s[i]));
    FirstMaxBounds(s, key, i, t[j]);
    FirstMaxBounds(t, key, j, s[i]);
    LessIsOrder(key(s[i]), key(t[j]), key(t[j]));
    forall k | 0 <= k < i ensures key(s[k]) != key(s[i]) { LessIsOrder(key(s[i]), key(s[i]), key(s[i])); }
    forall k | 0 <= k < j ensures key(t[k]) != key(t[j]) { LessIsOrder(key(t[j]), key(t[j]), key(t[j])); }
    HeadOfClass(s, key, i);
    HeadOfClass(t, key, j);
  }
}
