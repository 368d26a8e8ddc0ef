/**
 From configuration files and the environment to the defaults of options
 (configuration.py, cli/parser.py): two nested flattenings of dictionaries,
 regrouped by section and replayed in order.
 */
module Defaults {
  import opened Basics
  import opened Configuration

  // ---------------------------------------------------------------- variants, files, values

  /** Values by key, per file; files by name, per variant; variants from the lowest precedence up. */
  type Values = Dict<string>
  type Files = Dict<Values>

  /** All files, those of higher precedence later. */
  function Concat(variants: seq<Files>): Files {
    if variants == [] then []
    else Concat(variants[..|variants| - 1]) + variants[|variants| - 1]
  }

  /** `d.update(e)` */
  function Updated<V>(d: Dict<V>, e: Dict<V>): Dict<V> {
    if e == [] then d
    else
      var n := |e| - 1;
      Put(Updated(d, e[..n]), e[n].0, e[n].1)
  }

  /** The dictionary of all loaded files, the variants updating one another in turn. */
  function Dictionary(variants: seq<Files>): Files {
    if variants == [] then []
    else Updated(Dictionary(variants[..|variants| - 1]), variants[|variants| - 1])
  }

  function Flatten(files: Files): seq<(string, string)> {
    if files == [] then []
    else Flatten(files[..|files| - 1]) + files[|files| - 1].1
  }

  lemma FlattenStep(files: Files, i: nat)
    requires i < |files|
    ensures Flatten(files[..i + 1]) == Flatten(files[..i]) + files[i].1
  {
    assert files[..i + 1][..i] == files[..i];
  }

  /** What the highest file that defines a key gives it. */
  function Surviving(variants: seq<Files>, key: string): Option<string> {
    LastOf(Flatten(Concat(variants)), key)
  }

  /** The file at `i` is the last one that defines the key. */
  ghost predicate DecidesAt(files: Files, key: string, i: int) {
    && 0 <= i < |files| && LastOf(files[i].1, key).Some?
    && forall j :: i < j < |files| ==> LastOf(files[j].1, key).None?
  }

  lemma OneFileMore(files: Files, last: (string, Values), key: string)
    ensures LastOf(Flatten(files + [last]), key)
         == if LastOf(last.1, key).Some? then LastOf(last.1, key) else LastOf(Flatten(files), key)
  {
    assert (files + [last])[..|files|] == files;
    LastOfConcat(Flatten(files), last.1, key);
  }

  lemma DecidesStill(files: Files, last: (string, Values), key: string, i: int)
    requires DecidesAt(files, key, i) && LastOf(last.1, key).None?
    ensures DecidesAt(files + [last], key, i)
  {
  }

  /** A key has the value of the last file that defines it, and none if there is no such file. */
  lemma {:induction false} HighestFileDecides(files: Files, key: string) returns (i: int)
    ensures LastOf(Flatten(files), key).None? <==> forall i :: 0 <= i < |files| ==> LastOf(files[i].1, key).None?
    ensures LastOf(Flatten(files), key).Some? ==>
              DecidesAt(files, key, i) && LastOf(files[i].1, key) == LastOf(Flatten(files), key)
  {
    if files == [] {
      i := -1;
    } else {
      var n := |files| - 1;
      var before, last := files[..n], files[n];
      assert files == before + [last];
      OneFileMore(before, last, key);
      i := HighestFileDecides(before, key);
      if LastOf(last.1, key).Some? {
        i := n;
      } else if LastOf(Flatten(before), key).Some? {
        DecidesStill(before, last, key, i);
      }
    }
  }

  lemma LastIsNew<V>(d: Dict<V>, last: (string, V))
    requires Distinct(d + [last])
    ensures Distinct(d) && forall i :: 0 <= i < |d| ==> d[i].0 != last.0
  {
    var all := d + [last];
    assert forall i :: 0 <= i < |d| ==> all[i] == d[i];
    assert all[|d|] == last;
  }

  lemma {:induction false} UpdatedDisjoint<V>(d: Dict<V>, e: Dict<V>)
    requires Distinct(d + e)
    ensures Updated(d, e) == d + e
  {
    if e == [] {
      assert d + e == d;
    } else {
      var n := |e| - 1;
      var all, before := d + e, d + e[..n];
      assert all == before + [e[n]];
      LastIsNew(before, e[n]);
      UpdatedDisjoint(d, e[..n]);
      PutNew(before, e[n].0, e[n].1);
    }
  }

  /** With distinct file names the nested dictionaries are just the files in order of precedence. */
  lemma {:induction false} DictionaryIsConcat(variants: seq<Files>)
    requires Distinct(Concat(variants))
    ensures Dictionary(variants) == Concat(variants)
  {
    if variants == [] {
    } else {
      var n := |variants| - 1;
      var d, e := Concat(variants[..n]), variants[n];
      forall i, j | 0 <= i < j < |d| ensures d[i].0 != d[j].0 {
        assert (d + e)[i] == d[i] && (d + e)[j] == d[j];
      }
      DictionaryIsConcat(variants[..n]);
      UpdatedDisjoint(d, e);
    }
  }

  /**
   A file that is loaded under two variants keeps the place of the lower one:
   files in between win over it, although its upper variant outranks them.
   */
  lemma RepeatedFileLosesRank(f: string, g: string, key: string, a: string, b: string)
    requires f != g
    ensures var variants := [[(f, [(key, a)])], [(g, [(key, b)])], [(f, [(key, a)])]];
            && Surviving(variants, key) == Some(a)
            && LastOf(Flatten(Dictionary(variants)), key) == Some(b)
  {
    var low: Files, mid: Files := [(f, [(key, a)])], [(g, [(key, b)])];
    ThreeVariants(low, mid, low);
    UpdatedDisjoint(low, mid);
    assert low[..0] == [] && (low + mid)[1..] == mid;
    assert Put(low + mid, f, [(key, a)]) == low + mid;
    assert (low + mid)[..1] == low && ((low + mid) + low)[..2] == low + mid;
    assert Flatten(low) == [(key, a)];
    assert Flatten(low + mid) == [(key, a)] + [(key, b)];
    assert Flatten((low + mid) + low) == Flatten(low + mid) + [(key, a)];
  }

  lemma ThreeVariants(low: Files, mid: Files, high: Files)
    ensures Concat([low, mid, high]) == (low + mid) + high
    ensures Dictionary([low, mid, high]) == Updated(Updated(Updated([], low), mid), high)
    ensures Distinct(low) ==> Updated([], low) == low
  {
    OneMoreVariant([], low);
    OneMoreVariant([low], mid);
    OneMoreVariant([low, mid], high);
    assert [] + [low] == [low] && [low] + [mid] == [low, mid] && [low, mid] + [high] == [low, mid, high];
    assert [] + low == low;
    if Distinct(low) { UpdatedDisjoint([], low); }
  }

  lemma OneMoreVariant(variants: seq<Files>, last: Files)
    ensures Concat(variants + [last]) == Concat(variants) + last
    ensures Dictionary(variants + [last]) == Updated(Dictionary(variants), last)
  {
    assert (variants + [last])[..|variants|] == variants;
  }

  lemma {:induction false} UpdatedDistinct<V>(d: Dict<V>, e: Dict<V>)
    requires Distinct(d)
    ensures Distinct(Updated(d, e))
  {
    if e == [] {
    } else {
      var n := |e| - 1;
      UpdatedDistinct(d, e[..n]);
      PutKeepsDistinct(Updated(d, e[..n]), e[n].0, e[n].1);
    }
  }

  lemma {:induction false} DictionaryDistinct(variants: seq<Files>)
    ensures Distinct(Dictionary(variants))
  {
    if variants == [] {
    } else {
      var n := |variants| - 1;
      DictionaryDistinct(variants[..n]);
      UpdatedDistinct(Dictionary(variants[..n]), variants[n]);
    }
  }

  /** The nested dictionaries are just the files in order exactly when no file name is repeated. */
  lemma DictionaryExact(variants: seq<Files>)
    ensures Dictionary(variants) == Concat(variants) <==> Distinct(Concat(variants))
  {
    DictionaryDistinct(variants);
    if Distinct(Concat(variants)) { DictionaryIsConcat(variants); }
  }

  /** A variant that comes later outranks all before it. */
  lemma LaterVariantWins(variants: seq<Files>, last: Files, key: string)
    ensures Surviving(variants + [last], key)
         == if LastOf(Flatten(last), key).Some? then LastOf(Flatten(last), key) else Surviving(variants, key)
  {
    OneMoreVariant(variants, last);
    FlattenConcat(Concat(variants), last);
    LastOfConcat(Flatten(Concat(variants)), Flatten(last), key);
  }

  lemma {:induction false} FlattenConcat(a: Files, b: Files)
    ensures Flatten(a + b) == Flatten(a) + Flatten(b)
  {
    if b == [] {
      assert a + b == a;
    } else {
      var n := |b| - 1;
      assert (a + b)[..|a| + n] == a + b[..n];
      FlattenConcat(a, b[..n]);
    }
  }

  // ---------------------------------------------------------------- files loaded more than once

  /** Files of these names; what is in a file depends on its name only. */
  function Named(names: seq<string>, contents: string -> Values): Files {
    seq(|names|, i requires 0 <= i < |names| => (names[i], contents(names[i])))
  }

  function Loaded(variants: seq<seq<string>>, contents: string -> Values): seq<Files> {
    seq(|variants|, i requires 0 <= i < |variants| => Named(variants[i], contents))
  }

  function AllNames(variants: seq<seq<string>>): seq<string> {
    if variants == [] then [] else AllNames(variants[..|variants| - 1]) + variants[|variants| - 1]
  }

  /** The first occurrence of every name, in order. */
  function Firsts(names: seq<string>): (r: seq<string>)
    ensures forall x :: x in r <==> x in names
  {
    if names == [] then []
    else
      var n := |names| - 1;
      Firsts(names[..n]) + if names[n] in names[..n] then [] else [names[n]]
  }

  function FirstAt(names: seq<string>, x: string): (i: nat)
    requires x in names
    ensures i < |names| && names[i] == x && forall j :: 0 <= j < i ==> names[j] != x
  {
    if names[0] == x then 0 else 1 + FirstAt(names[1..], x)
  }

  function LastAt(names: seq<string>, x: string): (i: nat)
    requires x in names
    ensures i < |names| && names[i] == x && forall j :: i < j < |names| ==> names[j] != x
  {
    var n := |names| - 1;
    if names[n] == x then n else LastAt(names[..n], x)
  }

  predicate InOrder(names: seq<string>, f: string, g: string)
    requires f in names && g in names
  {
    FirstAt(names, f) < FirstAt(names, g) ==> LastAt(names, f) < LastAt(names, g)
  }

  /** Any two names first occur in the order in which they last occur. */
  predicate OrderKept(names: seq<string>) {
    forall f, g :: f in names && g in names ==> InOrder(names, f, g)
  }

  lemma {:induction false} ConcatLoaded(variants: seq<seq<string>>, contents: string -> Values)
    ensures Concat(Loaded(variants, contents)) == Named(AllNames(variants), contents)
  {
    if variants == [] {
    } else {
      var n := |variants| - 1;
      ConcatLoaded(variants[..n], contents);
      assert Loaded(variants, contents)[..n] == Loaded(variants[..n], contents);
    }
  }

  lemma {:induction false} PutKnown<V>(d: Dict<V>, key: string, value: V)
    requires forall i :: 0 <= i < |d| && d[i].0 == key ==> d[i].1 == value
    requires exists i :: 0 <= i < |d| && d[i].0 == key
    ensures Put(d, key, value) == d
  {
    if d[0].0 == key {
      assert d == [d[0]] + d[1..] && d[0] == (key, value);
    } else {
      var i :| 0 <= i < |d| && d[i].0 == key;
      assert d[1..][i - 1].0 == key;
      PutKnown(d[1..], key, value);
    }
  }

  /** Loading a known file once more changes nothing, a new one is added. */
  lemma PutNamed(names: seq<string>, x: string, contents: string -> Values)
    ensures Put(Named(Firsts(names), contents), x, contents(x)) == Named(Firsts(names + [x]), contents)
  {
    var firsts := Firsts(names);
    assert (names + [x])[..|names|] == names;
    if x in names {
      var i :| 0 <= i < |firsts| && firsts[i] == x;
      assert Named(firsts, contents)[i].0 == x;
      PutKnown(Named(firsts, contents), x, contents(x));
    } else {
      PutNew(Named(firsts, contents), x, contents(x));
    }
  }

  lemma NamedOneMore(names: seq<string>, x: string, contents: string -> Values)
    ensures Named(names + [x], contents) == Named(names, contents) + [(x, contents(x))]
  {
  }

  lemma UpdatedOneMore<V>(d: Dict<V>, e: Dict<V>, last: (string, V))
    ensures Updated(d, e + [last]) == Put(Updated(d, e), last.0, last.1)
  {
    assert (e + [last])[..|e|] == e;
  }

  lemma {:induction false} UpdatedNamed(names: seq<string>, more: seq<string>, contents: string -> Values)
    ensures Updated(Named(Firsts(names), contents), Named(more, contents)) == Named(Firsts(names + more), contents)
  {
    if more == [] {
      assert names + more == names;
    } else {
      var before, x := more[..|more| - 1], more[|more| - 1];
      assert more == before + [x];
      UpdatedNamed(names, before, contents);
      NamedOneMore(before, x, contents);
      UpdatedOneMore(Named(Firsts(names), contents), Named(before, contents), (x, contents(x)));
      PutNamed(names + before, x, contents);
      assert (names + before) + [x] == names + more;
    }
  }

  lemma {:induction false} DictionaryLoaded(variants: seq<seq<string>>, contents: string -> Values)
    ensures Dictionary(Loaded(variants, contents)) == Named(Firsts(AllNames(variants)), contents)
  {
    if variants == [] {
    } else {
      var n := |variants| - 1;
      DictionaryLoaded(variants[..n], contents);
      assert Loaded(variants, contents)[..n] == Loaded(variants[..n], contents);
      UpdatedNamed(AllNames(variants[..n]), variants[n], contents);
    }
  }

  lemma {:induction false} FirstsAscend(names: seq<string>, i: nat, j: nat)
    requires i < j < |Firsts(names)|
    ensures Firsts(names)[i] in names && Firsts(names)[j] in names
    ensures FirstAt(names, Firsts(names)[i]) < FirstAt(names, Firsts(names)[j])
  {
    var n := |names| - 1;
    var before, r := Firsts(names[..n]), Firsts(names);
    assert names == names[..n] + [names[n]];
    assert r[i] == before[i] && r[i] in before && r[j] in r;
    FirstAtPrefix(names, n, r[i]);
    if j < |before| {
      assert r[j] in before;
      FirstsAscend(names[..n], i, j);
      FirstAtPrefix(names, n, r[j]);
    }
  }

  lemma FirstAtPrefix(names: seq<string>, n: nat, x: string)
    requires n <= |names| && x in names[..n]
    ensures x in names && FirstAt(names, x) == FirstAt(names[..n], x)
  {
    var k := FirstAt(names[..n], x);
    assert names[k] == x;
    forall j | 0 <= j < k ensures names[j] != x { assert names[j] == names[..n][j]; }
  }

  lemma LastAtBound(names: seq<string>, j: nat)
    requires j < |names|
    ensures j <= LastAt(names, names[j])
  {
  }

  /** Index `i` is the last of a file that defines the key. */
  ghost predicate Decides(names: seq<string>, contents: string -> Values, key: string, i: int) {
    && 0 <= i < |names| && LastOf(contents(names[i]), key).Some?
    && forall j :: i < j < |names| ==> LastOf(contents(names[j]), key).None?
  }

  lemma DecidingFile(names: seq<string>, contents: string -> Values, key: string) returns (i: int)
    ensures var v := LastOf(Flatten(Named(names, contents)), key);
            if v.None? then forall x :: x in names ==> LastOf(contents(x), key).None?
            else Decides(names, contents, key, i) && v == LastOf(contents(names[i]), key)
  {
    var files := Named(names, contents);
    i := HighestFileDecides(files, key);
    assert forall k :: 0 <= k < |names| ==> files[k].1 == contents(names[k]);
    if LastOf(Flatten(files), key).None? {
      forall x | x in names ensures LastOf(contents(x), key).None? {
        var k :| 0 <= k < |names| && names[k] == x;
        assert files[k].1 == contents(x);
      }
    }
  }

  lemma SameDecider(names: seq<string>, contents: string -> Values, key: string, i: nat, j: nat)
    requires OrderKept(names) && Decides(Firsts(names), contents, key, i) && Decides(names, contents, key, j)
    ensures Firsts(names)[i] == names[j]
  {
    var firsts := Firsts(names);
    var f, g := firsts[i], names[j];
    assert f in firsts && g in firsts;
    assert InOrder(names, g, f);
    if f != g {
      var k :| 0 <= k < |firsts| && firsts[k] == g;
      FirstsAscend(names, k, i);
      LastAtBound(names, j);
    }
  }

  /** Where the order is kept both ways of looking a key up end at the same file. */
  lemma OrderedLookup(names: seq<string>, contents: string -> Values, key: string)
    requires OrderKept(names)
    ensures LastOf(Flatten(Named(Firsts(names), contents)), key) == LastOf(Flatten(Named(names, contents)), key)
  {
    var firsts := Firsts(names);
    var i := DecidingFile(firsts, contents, key);
    var j := DecidingFile(names, contents, key);
    if 0 <= i < |firsts| { assert firsts[i] in names; }
    if 0 <= j < |names| { assert names[j] in firsts; }
    if Decides(firsts, contents, key, i) && Decides(names, contents, key, j) {
      SameDecider(names, contents, key, i, j);
    }
  }

  /** Two files that both define a key. */
  function TwoFiles(f: string, g: string, key: string): string -> Values {
    (x: string) => if x == f then [(key, "f")] else if x == g then [(key, "g")] else []
  }

  lemma TwoFilesDefine(f: string, g: string, key: string, x: string)
    requires f != g
    ensures LastOf(TwoFiles(f, g, key)(x), key) == if x == f then Some("f") else if x == g then Some("g") else None
  {
  }

  /** The dictionary goes by first places ... */
  lemma LaterFirst(names: seq<string>, f: string, g: string, key: string)
    requires f in names && g in names && FirstAt(names, f) < FirstAt(names, g)
    ensures LastOf(Flatten(Named(Firsts(names), TwoFiles(f, g, key))), key) == Some("g")
  {
    var contents, firsts := TwoFiles(f, g, key), Firsts(names);
    forall x ensures LastOf(contents(x), key) == if x == f then Some("f") else if x == g then Some("g") else None {
      TwoFilesDefine(f, g, key, x);
    }
    var i := DecidingFile(firsts, contents, key);
    assert g in firsts;
    var k :| 0 <= k < |firsts| && firsts[k] == g;
    if k < i { FirstsAscend(names, k, i); }
  }

  /** ... and precedence by last places. */
  lemma LaterLast(names: seq<string>, f: string, g: string, key: string)
    requires f in names && g in names && LastAt(names, g) < LastAt(names, f)
    ensures LastOf(Flatten(Named(names, TwoFiles(f, g, key))), key) == Some("f")
  {
    var contents := TwoFiles(f, g, key);
    forall x ensures LastOf(contents(x), key) == if x == f then Some("f") else if x == g then Some("g") else None {
      TwoFilesDefine(f, g, key, x);
    }
    var j := DecidingFile(names, contents, key);
    assert names[LastAt(names, f)] == f;
    if 0 <= j < |names| { LastAtBound(names, j); }
  }

  lemma KeptOrderAgrees(variants: seq<seq<string>>, contents: string -> Values, key: string)
    requires OrderKept(AllNames(variants))
    ensures LastOf(Flatten(Dictionary(Loaded(variants, contents))), key) == Surviving(Loaded(variants, contents), key)
  {
    ConcatLoaded(variants, contents);
    DictionaryLoaded(variants, contents);
    OrderedLookup(AllNames(variants), contents, key);
  }

  lemma Swapped(names: seq<string>) returns (f: string, g: string)
    requires !OrderKept(names)
    ensures f in names && g in names && FirstAt(names, f) < FirstAt(names, g) && LastAt(names, g) < LastAt(names, f)
  {
    f, g :| f in names && g in names && !InOrder(names, f, g);
    assert names[LastAt(names, f)] == f && names[LastAt(names, g)] == g;
    assert names[FirstAt(names, f)] == f && names[FirstAt(names, g)] == g;
  }

  lemma SwappedOrderDiffers(variants: seq<seq<string>>, key: string) returns (contents: string -> Values)
    requires !OrderKept(AllNames(variants))
    ensures LastOf(Flatten(Dictionary(Loaded(variants, contents))), key) != Surviving(Loaded(variants, contents), key)
  {
    var names := AllNames(variants);
    var f, g := Swapped(names);
    contents := TwoFiles(f, g, key);
    ConcatLoaded(variants, contents);
    DictionaryLoaded(variants, contents);
    LaterFirst(names, f, g, key);
    LaterLast(names, f, g, key);
  }

  /**
   With files loaded more than once the lookups agree, whatever is in the
   files, exactly when any two files come in the same order by their first
   and by their last place.
   */
  lemma LookupOrderExact(variants: seq<seq<string>>)
    ensures (forall contents: string -> Values, key ::
               LastOf(Flatten(Dictionary(Loaded(variants, contents))), key) == Surviving(Loaded(variants, contents), key))
       <==> OrderKept(AllNames(variants))
  {
    if OrderKept(AllNames(variants)) {
      forall contents: string -> Values, key
        ensures LastOf(Flatten(Dictionary(Loaded(variants, contents))), key) == Surviving(Loaded(variants, contents), key)
      {
        KeptOrderAgrees(variants, contents, key);
      }
    } else {
      var contents := SwappedOrderDiffers(variants, "k");
      assert LastOf(Flatten(Dictionary(Loaded(variants, contents))), "k") != Surviving(Loaded(variants, contents), "k");
    }
  }

  // ---------------------------------------------------------------- reading

  /** A dictionary that reads like a list of entries. */
  ghost predicate ReadsLike(d: Values, entries: seq<(string, string)>) {
    Distinct(d) && forall k :: LastOf(d, k) == LastOf(entries, k)
  }

  lemma UpdateReads(d: Values, e: Values, entries: seq<(string, string)>)
    requires ReadsLike(d, entries)
    ensures ReadsLike(Updated(d, e), entries + e)
  {
    UpdatedReads(d, e, "");
    forall k ensures LastOf(Updated(d, e), k) == LastOf(entries + e, k) {
      UpdatedReads(d, e, k);
      LastOfConcat(entries, e, k);
    }
  }

  /** None stands for the ConfigurationError of an unknown key. */
  method GetValue(variants: seq<Files>, key: string) returns (r: Option<string>)
    ensures r == LastOf(Flatten(Dictionary(variants)), Normalize(key))
    ensures Distinct(Concat(variants)) ==> r == Surviving(variants, Normalize(key))
  {
    var files := Dictionary(variants);
    if Distinct(Concat(variants)) { DictionaryIsConcat(variants); }
    var clean: Values := [];
    for i := 0 to |files|
      invariant ReadsLike(clean, Flatten(files[..i]))
    {
      FlattenStep(files, i);
      UpdateReads(clean, files[i].1, Flatten(files[..i]));
      clean := Updated(clean, files[i].1);
    }
    assert files[..|files|] == files;
    r := LastOf(clean, Normalize(key));
  }

  lemma {:induction false} UpdatedReads(d: Values, e: Values, k: string)
    requires Distinct(d)
    ensures Distinct(Updated(d, e))
    ensures LastOf(Updated(d, e), k) == if LastOf(e, k).Some? then LastOf(e, k) else LastOf(d, k)
  {
    if e == [] {
    } else {
      var n := |e| - 1;
      UpdatedReads(d, e[..n], k);
      PutKeepsDistinct(Updated(d, e[..n]), e[n].0, e[n].1);
      LastOfPut(Updated(d, e[..n]), e[n].0, e[n].1, k);
    }
  }

  // ---------------------------------------------------------------- option defaults

  const GLOBAL := "global"
  const ENV := ":env:"

  /** An empty value counts as none. */
  function Truthy(v: Option<string>): Option<string> {
    if v.Some? && v.value != "" then v else None
  }

  /** The section of the command overrides the global one, and the environment both. */
  function Effective(files: Files, name: string, option: string): Option<string> {
    var inEnv := Truthy(LastOf(Flatten(files), Key(ENV, option)));
    var inCommand := Truthy(LastOf(Flatten(files), Key(name, option)));
    if inEnv.Some? then inEnv
    else if inCommand.Some? then inCommand
    else Truthy(LastOf(Flatten(files), Key(GLOBAL, option)))
  }

  /**
   The environment decides if it has a value that is not empty, else the
   section of the command, else the global one.
   */
  lemma EffectiveMeans(files: Files, name: string, option: string, value: string)
    ensures var entries := Flatten(files);
            var env, command, global :=
              LastOf(entries, ":env:." + option), LastOf(entries, name + "." + option), LastOf(entries, "global." + option);
            && (value != "" && env == Some(value) ==> Effective(files, name, option) == Some(value))
            && (value != "" && env in {None, Some("")} && command == Some(value) ==>
                  Effective(files, name, option) == Some(value))
            && (value != "" && env in {None, Some("")} && command in {None, Some("")} && global == Some(value) ==>
                  Effective(files, name, option) == Some(value))
            && (env in {None, Some("")} && command in {None, Some("")} && global in {None, Some("")} ==>
                  Effective(files, name, option) == None)
  {
    assert Key(ENV, option) == ":env:." + option && Key(GLOBAL, option) == "global." + option;
  }

  function NonEmpty(d: Values): Values {
    if d == [] then []
    else if d[|d| - 1].1 != "" then NonEmpty(d[..|d| - 1]) + [d[|d| - 1]]
    else NonEmpty(d[..|d| - 1])
  }

  lemma {:induction false} NonEmptyReads(d: Values, k: string)
    requires Distinct(d)
    ensures LastOf(NonEmpty(d), k) == Truthy(LastOf(d, k))
  {
    if d == [] {
    } else {
      var n := |d| - 1;
      NonEmptyReads(d[..n], k);
      if d[n].1 != "" {
        assert (NonEmpty(d[..n]) + [d[n]])[..|NonEmpty(d[..n])|] == NonEmpty(d[..n]);
      } else if d[n].0 == k {
        NotListed(d[..n], k);
      }
    }
  }

  predicate Dotted(files: Files) {
    forall i, j :: 0 <= i < |files| && 0 <= j < |files[i].1| ==> '.' in files[i].1[j].0
  }

  /** The groups hold, by section and option, what the entries so far give to the full keys. */
  ghost predicate Grouped(groups: map<string, Values>, entries: seq<(string, string)>) {
    forall s :: s in groups ==> '.' !in s && Distinct(groups[s])
                                && forall k :: LastOf(groups[s], k) == LastOf(entries, Key(s, k))
  }

  lemma GroupMore(groups: map<string, Values>, entries: seq<(string, string)>, full: string, value: string)
    requires Grouped(groups, entries) && Disassemble(full).Some?
    ensures var (section, option) := Disassemble(full).value;
            var after := if section in groups then groups[section := Put(groups[section], option, value)] else groups;
            Grouped(after, entries + [(full, value)])
  {
    var (section, option) := Disassemble(full).value;
    var after := if section in groups then groups[section := Put(groups[section], option, value)] else groups;
    forall s | s in after
      ensures Distinct(after[s]) && forall k :: LastOf(after[s], k) == LastOf(entries + [(full, value)], Key(s, k))
    {
      if s == section { PutKeepsDistinct(groups[s], option, value); }
      forall k ensures LastOf(after[s], k) == LastOf(entries + [(full, value)], Key(s, k)) {
        assert (entries + [(full, value)])[..|entries|] == entries;
        KeyInjective(s, k, section, option);
        if s == section { LastOfPut(groups[s], option, value, k); }
      }
    }
  }

  lemma PlainSections()
    ensures '.' !in GLOBAL && '.' !in ENV
  {
  }

  function Sections(name: string): (r: set<string>)
    requires '.' !in name
    ensures forall s :: s in r ==> '.' !in s
  {
    PlainSections();
    {GLOBAL, name, ENV}
  }

  function NoGroups(sections: set<string>): (r: map<string, Values>)
    requires forall s :: s in sections ==> '.' !in s
    ensures r.Keys == sections && Grouped(r, [])
  {
    map s | s in sections :: []
  }

  lemma OneMore(before: seq<(string, string)>, values: seq<(string, string)>, j: nat)
    requires j < |values|
    ensures before + values[..j + 1] == (before + values[..j]) + [(values[j].0, values[j].1)]
  {
  }

  /** The inner pooling loop: the values of one file, by section. */
  method GroupFile(groups: map<string, Values>, values: Values, ghost before: seq<(string, string)>)
    returns (r: map<string, Values>)
    requires Grouped(groups, before) && forall j :: 0 <= j < |values| ==> '.' in values[j].0
    ensures r.Keys == groups.Keys && Grouped(r, before + values)
  {
    r := groups;
    assert before + values[..0] == before;
    for j := 0 to |values|
      invariant r.Keys == groups.Keys && Grouped(r, before + values[..j])
    {
      var (section, option) := Disassemble(values[j].0).value;
      GroupMore(r, before + values[..j], values[j].0, values[j].1);
      OneMore(before, values, j);
      if section in r {
        r := r[section := Put(r[section], option, values[j].1)];
      }
    }
    assert values[..|values|] == values;
  }

  /** Values of a later file replace those of an earlier one. */
  method GroupBySection(files: Files, name: string) returns (groups: map<string, Values>)
    requires '.' !in name && Dotted(files)
    ensures groups.Keys == Sections(name) && Grouped(groups, Flatten(files))
  {
    groups := NoGroups(Sections(name));
    for i := 0 to |files|
      invariant groups.Keys == Sections(name) && Grouped(groups, Flatten(files[..i]))
    {
      FlattenStep(files, i);
      groups := GroupFile(groups, files[i].1, Flatten(files[..i]));
    }
    assert files[..|files|] == files;
  }

  lemma LastOfGroups(global: Values, command: Values, env: Values, option: string)
    requires Distinct(global) && Distinct(command) && Distinct(env)
    ensures LastOf(NonEmpty(global) + NonEmpty(command) + NonEmpty(env), option)
         == if Truthy(LastOf(env, option)).Some? then Truthy(LastOf(env, option))
            else if Truthy(LastOf(command, option)).Some? then Truthy(LastOf(command, option))
            else Truthy(LastOf(global, option))
  {
    NonEmptyReads(global, option);
    NonEmptyReads(command, option);
    NonEmptyReads(env, option);
    LastOfConcat(NonEmpty(global), NonEmpty(command), option);
    LastOfConcat(NonEmpty(global) + NonEmpty(command), NonEmpty(env), option);
  }

  predicate AllDotted(variants: seq<Files>) {
    forall i :: 0 <= i < |variants| ==> Dotted(variants[i])
  }

  lemma {:induction false} PutDotted(d: Files, key: string, value: Values)
    requires Dotted(d) && forall j :: 0 <= j < |value| ==> '.' in value[j].0
    ensures Dotted(Put(d, key, value))
  {
    if d == [] {
    } else {
      assert Dotted(d[1..]);
      PutDotted(d[1..], key, value);
    }
  }

  lemma {:induction false} UpdatedDotted(d: Files, e: Files)
    requires Dotted(d) && Dotted(e)
    ensures Dotted(Updated(d, e))
  {
    if e == [] {
    } else {
      var n := |e| - 1;
      assert Dotted(e[..n]);
      UpdatedDotted(d, e[..n]);
      PutDotted(Updated(d, e[..n]), e[n].0, e[n].1);
    }
  }

  lemma {:induction false} DictionaryDotted(variants: seq<Files>)
    requires AllDotted(variants)
    ensures Dotted(Dictionary(variants))
  {
    if variants == [] {
    } else {
      var n := |variants| - 1;
      DictionaryDotted(variants[..n]);
      UpdatedDotted(Dictionary(variants[..n]), variants[n]);
    }
  }

  /**
   The configuration's items in the order in which they become defaults.  With
   distinct file names the last one for an option is what the surviving values
   of its keys (`Surviving`) make effective.
   */
  method OrderedItems(variants: seq<Files>, name: string) returns (items: seq<(string, string)>)
    requires '.' !in name && AllDotted(variants)
    ensures forall option :: LastOf(items, option) == Effective(Dictionary(variants), name, option)
    ensures Distinct(Concat(variants)) ==> forall option :: LastOf(items, option) == Effective(Concat(variants), name, option)
  {
    var files := Dictionary(variants);
    DictionaryDotted(variants);
    DictionaryExact(variants);
    var groups := GroupBySection(files, name);
    items := NonEmpty(groups[GLOBAL]) + NonEmpty(groups[name]) + NonEmpty(groups[ENV]);
    forall option ensures LastOf(items, option) == Effective(files, name, option) {
      LastOfGroups(groups[GLOBAL], groups[name], groups[ENV], option);
    }
  }

  /** No other option has the destination of this one. */
  predicate Alone(dests: map<string, string>, option: string)
    requires option in dests
  {
    forall o :: o in dests && dests[o] == dests[option] ==> o == option
  }

  /** The destination holds the value, or what it held by default. */
  predicate Stands(r: map<string, string>, defaults: map<string, string>, dest: string, value: Option<string>) {
    match value
    case Some(v) => dest in r && r[dest] == v
    case None => if dest in defaults then dest in r && r[dest] == defaults[dest] else dest !in r
  }

  /** What the items leave in the destinations, and in everything else. */
  ghost predicate Stores(items: seq<(string, string)>, dests: map<string, string>, defaults: map<string, string>,
                         r: map<string, string>) {
    && (forall option :: option in dests && Alone(dests, option) ==> Stands(r, defaults, dests[option], LastOf(items, option)))
    && (forall d :: d !in dests.Values ==> Stands(r, defaults, d, None))
  }

  lemma StoresMore(items: seq<(string, string)>, dests: map<string, string>, defaults: map<string, string>,
                   r: map<string, string>, option: string, value: string)
    requires Stores(items, dests, defaults, r)
    ensures Stores(items + [(option, value)], dests, defaults, if option in dests then r[dests[option] := value] else r)
  {
    var more, after := items + [(option, value)], if option in dests then r[dests[option] := value] else r;
    forall o | o in dests && Alone(dests, o) ensures Stands(after, defaults, dests[o], LastOf(more, o)) {
      assert more[..|items|] == items;
      assert Stands(r, defaults, dests[o], LastOf(items, o));
    }
    forall d | d !in dests.Values ensures Stands(after, defaults, d, None) {
      assert Stands(r, defaults, d, None);
    }
  }

  /** Store options only: each item of a known option sets the option's destination. */
  method UpdateDefaults(variants: seq<Files>, name: string, dests: map<string, string>, defaults: map<string, string>)
    returns (r: map<string, string>)
    requires '.' !in name && AllDotted(variants)
    ensures forall option :: option in dests && (forall o :: o in dests && o != option ==> dests[o] != dests[option]) ==>
              match Effective(Dictionary(variants), name, option)
              case Some(v) => dests[option] in r && r[dests[option]] == v
              case None => if dests[option] in defaults
                           then dests[option] in r && r[dests[option]] == defaults[dests[option]]
                           else dests[option] !in r
    ensures forall d :: d !in dests.Values ==> (d in r <==> d in defaults) && (d in r ==> r[d] == defaults[d])
  {
    var items := OrderedItems(variants, name);
    r := defaults;
    for i := 0 to |items|
      invariant Stores(items[..i], dests, defaults, r)
    {
      StoresMore(items[..i], dests, defaults, r, items[i].0, items[i].1);
      OneMore([], items, i);
      assert [] + items[..i] == items[..i] && [] + items[..i + 1] == items[..i + 1];
      if items[i].0 in dests {
        r := r[dests[items[i].0] := items[i].1];
      }
    }
    assert items[..|items|] == items;
    assert forall option :: option in dests && Alone(dests, option) ==>
             Stands(r, defaults, dests[option], LastOf(items, option));
    assert forall d :: d !in dests.Values ==> Stands(r, defaults, d, None);
  }
}
