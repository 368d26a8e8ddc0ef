/**
 Project names and the comma lists they travel in: canonical form, splitting,
 joining, and the order in which a set is printed.
 */
module Names {
  import opened Basics

  // ---------------------------------------------------------------- canonical names

  /** Lower case, with `_` and `.` read as `-`. */
  function Fold(c: char): char {
    if 'A' <= c <= 'Z' then (c as int + 32) as char
    else if c == '_' || c == '.' then '-'
    else c
  }

  /** `canonicalize_name`: folded, with runs of `-` condensed to one. */
  function Canonicalize(s: string): (r: string) {
    if s == "" then ""
    else
      var c, rest := Fold(s[0]), Canonicalize(s[1..]);
      if c == '-' && rest != "" && rest[0] == '-' then rest else [c] + rest
  }

  predicate Canonical(s: string) {
    && (forall i :: 0 <= i < |s| ==> Fold(s[i]) == s[i])
    && (forall i :: 0 <= i < |s| - 1 ==> s[i] != '-' || s[i + 1] != '-')
  }

  lemma {:induction false} CanonicalizeIsCanonical(s: string)
    ensures Canonical(Canonicalize(s))
  {
    if s == "" {
    } else {
      CanonicalizeIsCanonical(s[1..]);
      assert Fold(Fold(s[0])) == Fold(s[0]);
    }
  }

  /** Canonical names are the fixed points, so canonicalizing twice changes nothing. */
  lemma {:induction false} CanonicalStays(s: string)
    requires Canonical(s)
    ensures Canonicalize(s) == s
  {
    if s == "" {
    } else {
      assert forall i :: 0 <= i < |s[1..]| ==> s[1..][i] == s[i + 1];
      CanonicalStays(s[1..]);
      assert s == [s[0]] + s[1..];
    }
  }

  predicate IsSeparator(c: char) { c in "-_." }

  function SkipRun(s: string): (r: string)
    ensures |r| <= |s| && (r != "" ==> !IsSeparator(r[0]))
  {
    if s != "" && IsSeparator(s[0]) then SkipRun(s[1..]) else s
  }

  /** The normalization of PEP 503: `re.sub(r"[-_.]+", "-", name).lower()`, run by run. */
  function Pep503(s: string): string
    decreases |s|
  {
    if s == "" then ""
    else if IsSeparator(s[0]) then "-" + Pep503(SkipRun(s[1..]))
    else [if 'A' <= s[0] <= 'Z' then s[0] - 'A' + 'a' else s[0]] + Pep503(s[1..])
  }

  /** Replacing single characters and condensing afterwards comes to the same. */
  lemma {:induction false} CanonicalizeIsPep503(s: string)
    ensures Canonicalize(s) == Pep503(s)
    decreases |s|
  {
    if s == "" {
    } else {
      var rest := s[1..];
      CanonicalizeIsPep503(rest);
      if rest == "" {
        assert SkipRun(rest) == "";
      } else if IsSeparator(s[0]) && IsSeparator(rest[0]) {
        assert SkipRun(rest) == SkipRun(rest[1..]);
        assert Pep503(rest) == "-" + Pep503(SkipRun(rest[1..]));
      } else if IsSeparator(s[0]) {
        assert SkipRun(rest) == rest;
        assert Canonicalize(rest)[0] != '-';
      }
    }
  }

  /** Commas are neither made nor removed. */
  lemma {:induction false} CanonicalizeKeepsCommas(s: string)
    ensures ',' in Canonicalize(s) <==> ',' in s
  {
    if s == "" {
    } else {
      CanonicalizeKeepsCommas(s[1..]);
      assert Fold(s[0]) == ',' <==> s[0] == ',';
      assert s == [s[0]] + s[1..];
    }
  }

  // ---------------------------------------------------------------- comma lists

  /** `value.split(",")` */
  function Split(s: string): (r: seq<string>)
    ensures r != []
    ensures forall k :: 0 <= k < |r| ==> ',' !in r[k]
  {
    if s == "" then [""]
    else
      var r := Split(s[1..]);
      if s[0] == ',' then [""] + r else [[s[0]] + r[0]] + r[1..]
  }

  /** `",".join(parts)` */
  function Join(parts: seq<string>): string {
    if parts == [] then ""
    else if |parts| == 1 then parts[0]
    else parts[0] + "," + Join(parts[1..])
  }

  lemma {:induction false} SplitPlain(s: string)
    requires ',' !in s
    ensures Split(s) == [s]
  {
    if s == "" {
    } else {
      SplitPlain(s[1..]);
      assert s == [s[0]] + s[1..];
    }
  }

  lemma {:induction false} SplitFirst(part: string, rest: string)
    requires ',' !in part
    ensures Split(part + "," + rest) == [part] + Split(rest)
  {
    var s := part + "," + rest;
    if part == "" {
      assert s[1..] == rest;
    } else {
      assert s[1..] == part[1..] + "," + rest;
      SplitFirst(part[1..], rest);
      assert part == [part[0]] + part[1..];
    }
  }

  /** Splitting undoes joining. */
  lemma {:induction false} SplitJoin(parts: seq<string>)
    requires parts != []
    requires forall k :: 0 <= k < |parts| ==> ',' !in parts[k]
    ensures Split(Join(parts)) == parts
  {
    if |parts| == 1 {
      SplitPlain(parts[0]);
    } else {
      SplitJoin(parts[1..]);
      SplitFirst(parts[0], Join(parts[1..]));
      assert parts == [parts[0]] + parts[1..];
    }
  }

  // ---------------------------------------------------------------- printing order

  predicate Leq(a: string, b: string) {
    a == "" || (b != "" && (a[0] < b[0] || (a[0] == b[0] && Leq(a[1..], b[1..]))))
  }

  lemma {:induction false} LeqTotal(a: string, b: string)
    ensures Leq(a, b) || Leq(b, a)
    ensures Leq(a, b) && Leq(b, a) ==> a == b
  {
    if a == "" || b == "" || a[0] != b[0] {
    } else {
      LeqTotal(a[1..], b[1..]);
      assert a == [a[0]] + a[1..] && b == [b[0]] + b[1..];
    }
  }

  lemma {:induction false} LeqTransitive(a: string, b: string, c: string)
    requires Leq(a, b) && Leq(b, c)
    ensures Leq(a, c)
  {
    if a == "" || !(a[0] == b[0] == c[0]) {
    } else {
      LeqTransitive(a[1..], b[1..], c[1..]);
    }
  }

  lemma LeqIsTotalOrder()
    ensures TotalOrder(Leq)
  {
    forall a, b ensures (Leq(a, b) || Leq(b, a)) && (Leq(a, b) && Leq(b, a) ==> a == b) { LeqTotal(a, b); }
    forall a, b, c | Leq(a, b) && Leq(b, c) ensures Leq(a, c) { LeqTransitive(a, b, c); }
  }

  /** `sorted(s)` */
  function Sorted(s: set<string>): (r: seq<string>)
    ensures forall x :: x in r <==> x in s
    ensures forall i, j :: 0 <= i < j < |r| ==> Leq(r[i], r[j]) && r[i] != r[j]
  {
    if s == {} then []
    else
      LeqIsTotalOrder();
      HasLeast(Leq, s);
      var m :| IsLeast(Leq, m, s);
      [m] + Sorted(s - {m})
  }
}
