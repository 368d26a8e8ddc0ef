/** Types shared by the models. */
module Basics {

  /** Python's "or None". */
  datatype Option<+T> = None | Some(value: T)

  newtype byte = x: int | 0 <= x < 256

  predicate IsLeast<T(!new)>(leq: (T, T) -> bool, m: T, s: set<T>) {
    m in s && forall x :: x in s ==> leq(m, x)
  }

  ghost predicate TotalOrder<T(!new)>(leq: (T, T) -> bool) {
    && (forall a, b :: leq(a, b) || leq(b, a))
    && (forall a, b :: leq(a, b) && leq(b, a) ==> a == b)
    && (forall a, b, c :: leq(a, b) && leq(b, c) ==> leq(a, c))
  }

  /** A non-empty set has exactly one least element. */
  lemma {:induction false} HasLeast<T(!new)>(leq: (T, T) -> bool, s: set<T>)
    requires TotalOrder(leq) && s != {}
    ensures exists m :: IsLeast(leq, m, s)
    ensures forall m, m' :: IsLeast(leq, m, s) && IsLeast(leq, m', s) ==> m == m'
  {
    var x :| x in s;
    if s == {x} {
      assert IsLeast(leq, x, s);
    } else {
      HasLeast(leq, s - {x});
      var m :| IsLeast(leq, m, s - {x});
      assert forall y :: y in s ==> y == x || y in s - {x};
      assert IsLeast(leq, if leq(x, m) then x else m, s);
    }
  }

  // ---------------------------------------------------------------- dictionaries that keep their order

  /** A Python dictionary: distinct keys in the order of their first insertion. */
  type Dict<V> = seq<(string, V)>

  ghost predicate Distinct<V>(d: Dict<V>) {
    forall i, j :: 0 <= i < j < |d| ==> d[i].0 != d[j].0
  }

  /** `d[key] = value`: an existing key keeps its place. */
  function Put<V>(d: Dict<V>, key: string, value: V): (r: Dict<V>)
    ensures |d| <= |r| <= |d| + 1
    ensures forall i :: 0 <= i < |d| ==> r[i].0 == d[i].0
    ensures |r| > |d| ==> r[|d|] == (key, value)
  {
    if d == [] then [(key, value)]
    else if d[0].0 == key then [(key, value)] + d[1..]
    else [d[0]] + Put(d[1..], key, value)
  }

  /** The last value listed for a key. */
  function LastOf<V>(entries: seq<(string, V)>, key: string): Option<V> {
    if entries == [] then None
    else
      var n := |entries| - 1;
      if entries[n].0 == key then Some(entries[n].1) else LastOf(entries[..n], key)
  }

  /** The value at the last place where the key is listed, if there is one. */
  lemma {:induction false} LastOfMeans<V>(entries: seq<(string, V)>, key: string)
    ensures LastOf(entries, key).None? <==> forall i :: 0 <= i < |entries| ==> entries[i].0 != key
    ensures LastOf(entries, key).Some? ==>
              exists i :: 0 <= i < |entries| && entries[i] == (key, LastOf(entries, key).value)
                          && forall j :: i < j < |entries| ==> entries[j].0 != key
  {
    if entries == [] {
    } else {
      var n := |entries| - 1;
      LastOfMeans(entries[..n], key);
      if entries[n].0 == key {
        assert entries[n] == (key, LastOf(entries, key).value);
      } else if LastOf(entries, key).Some? {
        var i :| 0 <= i < n && entries[..n][i] == (key, LastOf(entries, key).value)
                 && forall j :: i < j < n ==> entries[..n][j].0 != key;
        assert entries[i] == entries[..n][i];
        forall j | i < j < |entries| ensures entries[j].0 != key {
          if j < n { assert entries[..n][j] == entries[j]; }
        }
      }
    }
  }

  lemma {:induction false} LastOfConcat<V>(a: seq<(string, V)>, b: seq<(string, V)>, key: string)
    ensures LastOf(a + b, key) == if LastOf(b, key).Some? then LastOf(b, key) else LastOf(a, key)
  {
    if b == [] {
      assert a + b == a;
    } else {
      var n := |b| - 1;
      assert (a + b)[..|a| + n] == a + b[..n];
      LastOfConcat(a, b[..n], key);
    }
  }

  lemma {:induction false} PutNew<V>(d: Dict<V>, key: string, value: V)
    requires forall i :: 0 <= i < |d| ==> d[i].0 != key
    ensures Put(d, key, value) == d + [(key, value)]
  {
    if d == [] {
    } else {
      PutNew(d[1..], key, value);
    }
  }

  lemma {:induction false} PutKeepsDistinct<V>(d: Dict<V>, key: string, value: V)
    requires Distinct(d)
    ensures Distinct(Put(d, key, value))
  {
    if d == [] || d[0].0 == key {
    } else {
      PutKeepsDistinct(d[1..], key, value);
      var rest := Put(d[1..], key, value);
      forall j | 0 <= j < |rest| ensures rest[j].0 != d[0].0 {
        if j < |d| - 1 { assert rest[j].0 == d[1..][j].0; }
      }
    }
  }

  lemma {:induction false} LastOfPut<V>(d: Dict<V>, key: string, value: V, k: string)
    requires Distinct(d)
    ensures LastOf(Put(d, key, value), k) == if k == key then Some(value) else LastOf(d, k)
  {
    if d == [] {
      assert LastOf([(key, value)][..0], k) == None;
    } else if d[0].0 == key {
      LastOfConcat([(key, value)], d[1..], k);
      LastOfConcat([d[0]], d[1..], k);
      assert [d[0]] + d[1..] == d;
      NotListed(d[1..], key);
      assert LastOf([(key, value)][..0], k) == None && LastOf([d[0]][..0], k) == None;
    } else {
      LastOfPut(d[1..], key, value, k);
      LastOfConcat([d[0]], Put(d[1..], key, value), k);
      LastOfConcat([d[0]], d[1..], k);
      assert [d[0]] + d[1..] == d;
      assert LastOf([d[0]][..0], k) == None;
    }
  }

  lemma {:induction false} NotListed<V>(d: seq<(string, V)>, key: string)
    requires forall i :: 0 <= i < |d| ==> d[i].0 != key
    ensures LastOf(d, key).None?
  {
    if d == [] {
    } else {
      NotListed(d[..|d| - 1], key);
    }
  }
}
