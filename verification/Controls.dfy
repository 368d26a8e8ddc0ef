/**
 Format control and release control (models/format_control.py,
 models/release_control.py) and how both are handed to the kpip that builds
 in a subprocess (build_env/installer.py).
 */
module Controls {
  import opened Basics
  import opened Names
  import opened Excludes

  datatype Format = Binary | Source

  datatype Verdict = Allowed | FinalOnly | Default

  /** What format control says about a project; `first` is no_binary, `second` is only_binary. */
  function AllowedFormats(c: Control, name: string): set<Format> {
    if name in c.second then {Binary}
    else if name in c.first then {Source}
    else if ALL in c.second then {Binary}
    else if ALL in c.first then {Source}
    else {Binary, Source}
  }

  /** What release control says; `first` is all_releases, `second` is only_final. */
  function AllowsPrereleases(c: Control, name: string): Verdict {
    if name in c.first then Allowed
    else if name in c.second then FinalOnly
    else if ALL in c.first then Allowed
    else if ALL in c.second then FinalOnly
    else Default
  }

  /** Equivalent states give the same verdicts for every project. */
  lemma AlikeVerdicts(c: Control, c': Control, name: string)
    requires AlikeControls(c, c')
    ensures AllowedFormats(c, name) == AllowedFormats(c', name)
    ensures AllowsPrereleases(c, name) == AllowsPrereleases(c', name)
  {
  }

  /**
   A comma list means what its items mean as separate options: both controls
   give the same verdict for every project, at once and after any later options.
   */
  lemma {:induction false} CommaListVerdicts(history: seq<Opt>, o: Opt, later: seq<Opt>, name: string)
    requires Separable(o) && forall k :: 0 <= k < |later| ==> DiscreetOpt(later[k])
    ensures var c := HandleAll(history, Control({}, {}));
            var joint := HandleAll(later, Handle(o, c));
            var separate := HandleAll(later, HandleAll(Separate(o.side, Split(o.value)), c));
            && AllowedFormats(joint, name) == AllowedFormats(separate, name)
            && AllowsPrereleases(joint, name) == AllowsPrereleases(separate, name)
  {
    var c := HandleAll(history, Control({}, {}));
    HandleAllKeepsDisjoint(history, Control({}, {}));
    CommaListIsSeparateOptions(c, o, later);
    AlikeVerdicts(HandleAll(later, Handle(o, c)),
                  HandleAll(later, HandleAll(Separate(o.side, Split(o.value)), c)), name);
  }

  // ---------------------------------------------------------------- what the options mean

  lemma {:induction false} HandleAllConcat(a: seq<Opt>, b: seq<Opt>, c: Control)
    ensures HandleAll(a + b, c) == HandleAll(b, HandleAll(a, c))
  {
    if a == [] {
      assert a + b == b;
    } else {
      assert (a + b)[1..] == a[1..] + b;
      HandleAllConcat(a[1..], b, Handle(a[0], c));
    }
  }

  lemma OneMoreOption(history: seq<Opt>, side: Side, item: string)
    requires ',' !in item && !Dashed(item)
    ensures var c := HandleAll(history, Control({}, {}));
            HandleAll(history + [Opt(side, item)], Control({}, {})) == Unview(side, One(item, View(side, c)))
  {
    HandleAllConcat(history, [Opt(side, item)], Control({}, {}));
    assert [Opt(side, item)][1..] == [];
    SingleItem(side, item, HandleAll(history, Control({}, {})));
  }

  /** Without options there is no verdict on pre-releases, and both formats are allowed. */
  lemma NoOptions(name: string)
    ensures AllowsPrereleases(HandleAll([], Control({}, {})), name) == Default
    ensures AllowedFormats(HandleAll([], Control({}, {})), name) == {Binary, Source}
  {
  }

  /** The last option that names a project decides for it, and for no other. */
  lemma LastOptionDecides(history: seq<Opt>, side: Side, item: string, name: string)
    requires ',' !in item && !Dashed(item) && item != ALL && item != NONE
    ensures var before := HandleAll(history, Control({}, {}));
            var c := HandleAll(history + [Opt(side, item)], Control({}, {}));
            var named := Canonicalize(item);
            && AllowsPrereleases(c, named) == (if side.First? then Allowed else FinalOnly)
            && AllowedFormats(c, named) == (if side.First? then {Source} else {Binary})
            && (name != named && named != ALL ==>
                  && AllowsPrereleases(c, name) == AllowsPrereleases(before, name)
                  && AllowedFormats(c, name) == AllowedFormats(before, name))
  {
    OneMoreOption(history, side, item);
  }

  /** `:all:` decides for every project ... */
  lemma AllDecides(history: seq<Opt>, side: Side, name: string)
    ensures var c := HandleAll(history + [Opt(side, ":all:")], Control({}, {}));
            && AllowsPrereleases(c, name) == (if side.First? then Allowed else FinalOnly)
            && AllowedFormats(c, name) == (if side.First? then {Source} else {Binary})
  {
    PlainAll();
    OneMoreOption(history, side, ALL);
  }

  /** ... but those that are then excepted. */
  lemma ExceptionWins(history: seq<Opt>, item: string, name: string)
    requires ',' !in item && !Dashed(item) && item != ALL && item != NONE && Canonicalize(item) != ALL
    ensures var c := HandleAll(history + [Opt(First, ":all:")] + [Opt(Second, item)], Control({}, {}));
            var excepted := name == Canonicalize(item);
            && AllowsPrereleases(c, name) == (if excepted then FinalOnly else Allowed)
            && AllowedFormats(c, name) == (if excepted then {Binary} else {Source})
    ensures var c := HandleAll(history + [Opt(Second, ":all:")] + [Opt(First, item)], Control({}, {}));
            var excepted := name == Canonicalize(item);
            && AllowsPrereleases(c, name) == (if excepted then Allowed else FinalOnly)
            && AllowedFormats(c, name) == (if excepted then {Source} else {Binary})
  {
    AllDecides(history, First, name);
    AllDecides(history, Second, name);
    LastOptionDecides(history + [Opt(First, ":all:")], Second, item, name);
    LastOptionDecides(history + [Opt(Second, ":all:")], First, item, name);
  }

  /** `:none:` takes back what its own side has, and both together everything. */
  lemma NoneTakesBack(history: seq<Opt>, side: Side, name: string)
    ensures var before := HandleAll(history, Control({}, {}));
            var c := HandleAll(history + [Opt(side, ":none:")], Control({}, {}));
            if side.First? then c.first == {} && c.second == before.second else c.first == before.first && c.second == {}
    ensures var c := HandleAll(history + [Opt(First, ":none:")] + [Opt(Second, ":none:")], Control({}, {}));
            AllowsPrereleases(c, name) == Default && AllowedFormats(c, name) == {Binary, Source}
  {
    assert ',' !in NONE && !Dashed(NONE);
    OneMoreOption(history, side, NONE);
    OneMoreOption(history, First, NONE);
    OneMoreOption(history + [Opt(First, ":none:")], Second, NONE);
  }

  // ---------------------------------------------------------------- handing sets on as text

  /** An item that is still what it was when it comes back in canonical form. */
  predicate Tidy(item: string) {
    || item == ALL || item == NONE
    || (Canonicalize(item) != ALL && Canonicalize(item) != NONE && !Dashed(Canonicalize(item)))
  }

  /** The items of a value that are acted on one by one: none behind the last `:all:` unless a `:none:` is among them. */
  function Acted(items: seq<string>): seq<string>
    decreases |items|
  {
    if ALL !in items then items
    else
      var rest := items[FirstAll(items) + 1..];
      if NONE !in rest then [] else Acted(rest)
  }

  predicate AllTidy(items: seq<string>) { forall k :: 0 <= k < |items| ==> Tidy(items[k]) }

  /** An option that is refused, or whose items are all tidy as far as they are acted on. */
  predicate TidyOpt(o: Opt) { Dashed(o.value) || AllTidy(Acted(Split(o.value))) }

  /** Names as they get into a set: canonical, and from comma lists. */
  predicate Written(names: set<string>) {
    forall n :: n in names ==> ',' !in n && (n == ALL || Canonicalize(n) == n)
  }

  /** `sorted(formats or {":none:"})` */
  function Items(names: set<string>): (r: seq<string>)
    ensures r != []
  {
    if names == {} then [NONE]
    else
      var n :| n in names;
      assert n in Sorted(names);
      Sorted(names)
  }

  /** `",".join(sorted(formats or {":none:"}))` */
  function Printed(names: set<string>): string { Join(Items(names)) }

  lemma PlainAll()
    ensures ',' !in ALL && !Dashed(ALL)
  {
  }

  lemma {:induction false} ItemsAreWritten(items: seq<string>, s: Sides)
    requires Written(s.target) && Written(s.other) && forall k :: 0 <= k < |items| ==> ',' !in items[k]
    ensures Written(Each(items, s).target) && Written(Each(items, s).other)
  {
    PlainAll();
    if items == [] {
    } else {
      var item := items[0];
      CanonicalizeIsCanonical(item);
      CanonicalStays(Canonicalize(item));
      CanonicalizeKeepsCommas(item);
      ItemsAreWritten(items[1..], One(item, s));
    }
  }

  lemma {:induction false} ValuesAreWritten(items: seq<string>, s: Sides)
    requires Written(s.target) && Written(s.other) && forall k :: 0 <= k < |items| ==> ',' !in items[k]
    ensures Written(Joint(items, s).target) && Written(Joint(items, s).other)
    decreases |items|
  {
    PlainAll();
    if ALL !in items {
      ItemsAreWritten(items, s);
    } else {
      var rest := items[FirstAll(items) + 1..];
      if NONE in rest { ValuesAreWritten(rest, Sides({ALL}, {})); }
    }
  }

  /** Whatever the options, what gets into the sets is written so. */
  lemma {:induction false} OptionsAreWritten(options: seq<Opt>, c: Control)
    requires Written(c.first) && Written(c.second)
    ensures Written(HandleAll(options, c).first) && Written(HandleAll(options, c).second)
  {
    if options == [] {
    } else {
      ValuesAreWritten(Split(options[0].value), View(options[0].side, c));
      OptionsAreWritten(options[1..], Handle(options[0], c));
    }
  }

  lemma PrintedItems(names: set<string>)
    requires Written(names)
    ensures Split(Printed(names)) == Items(names)
  {
    var items := Items(names);
    forall k | 0 <= k < |items| ensures ',' !in items[k] {
      assert items[k] in items;
      PlainAll();
    }
    SplitJoin(items);
  }

  lemma {:induction false} EachOfPlainNames(items: seq<string>, s: Sides)
    requires forall k :: 0 <= k < |items| ==> items[k] != ALL && items[k] != NONE && Canonicalize(items[k]) == items[k]
    ensures Each(items, s) == Sides(s.target + (set n | n in items), s.other - (set n | n in items))
  {
    if items == [] {
    } else {
      EachOfPlainNames(items[1..], One(items[0], s));
      assert (set n | n in items) == {items[0]} + (set n | n in items[1..]);
    }
  }

  lemma SetOfItems(names: set<string>)
    requires names != {}
    ensures (set n | n in Items(names)) == names
    ensures forall k :: 0 <= k < |Items(names)| ==> Items(names)[k] in names
  {
    var items := Items(names);
    assert forall k :: 0 <= k < |items| ==> items[k] in items;
  }

  /** What a child does with a printed set: all of it, nothing but `:all:`, or clear its own. */
  lemma ItemsAreRead(names: set<string>, s: Sides)
    requires Written(names) && NONE !in names
    ensures Joint(Items(names), s)
         == if names == {} then Sides({}, s.other)
            else if ALL in names then Sides({ALL}, {})
            else Sides(s.target + names, s.other - names)
  {
    var items := Items(names);
    if names == {} {
      assert items[1..] == [];
      assert Each(items[1..], One(NONE, s)) == One(NONE, s);
    } else {
      SetOfItems(names);
      if ALL in names {
        assert ALL in items;
        assert forall x :: x in items[FirstAll(items) + 1..] ==> x in items;
      } else {
        assert ALL !in items;
        EachOfPlainNames(items, s);
      }
    }
  }

  // ---------------------------------------------------------------- a set that holds `:none:` as a name

  predicate Avoids(names: set<string>) { ALL !in names && NONE !in names }

  /** Names that are read as they are written. */
  predicate Verbatim(items: seq<string>) {
    forall k :: 0 <= k < |items| ==> items[k] == NONE || (items[k] != ALL && Canonicalize(items[k]) == items[k])
  }

  lemma {:induction false} EachAvoids(items: seq<string>, s: Sides)
    requires Verbatim(items) && (NONE in items || Avoids(s.target))
    ensures Avoids(Each(items, s).target) && Each(items, s).other <= s.other
  {
    if items == [] {
    } else {
      assert items == [items[0]] + items[1..];
      EachAvoids(items[1..], One(items[0], s));
    }
  }

  lemma AllBeforeNone()
    ensures !Leq(NONE, ALL)
  {
    assert NONE[1..] == "none:" && ALL[1..] == "all:";
  }

  /** Sorted, no item is repeated, and `:none:` does not come before `:all:`. */
  ghost predicate Lined(items: seq<string>) {
    forall i, j :: 0 <= i < j < |items| ==> items[i] != items[j] && !(items[i] == NONE && items[j] == ALL)
  }

  lemma SortedIsLined(names: set<string>)
    ensures Lined(Sorted(names))
  {
    AllBeforeNone();
  }

  lemma BehindAll(items: seq<string>)
    requires Lined(items) && NONE in items && ALL in items
    requires forall k :: 0 <= k < |items| ==> items[k] == ALL || Canonicalize(items[k]) == items[k]
    ensures var rest := items[FirstAll(items) + 1..]; ALL !in rest && NONE in rest && Verbatim(rest)
  {
    var k := FirstAll(items);
    var rest := items[k + 1..];
    var m :| 0 <= m < |items| && items[m] == NONE;
    assert k < m && rest[m - k - 1] == NONE;
    assert forall j :: 0 <= j < |rest| ==> rest[j] == items[k + 1 + j];
  }

  lemma NoneClears(items: seq<string>, s: Sides)
    requires Lined(items) && NONE in items
    requires forall k :: 0 <= k < |items| ==> items[k] == ALL || Canonicalize(items[k]) == items[k]
    ensures Avoids(Joint(items, s).target) && Joint(items, s).other <= s.other
  {
    if ALL !in items {
      EachAvoids(items, s);
    } else {
      BehindAll(items);
      EachAvoids(items[FirstAll(items) + 1..], Sides({ALL}, {}));
    }
  }

  /** Printed, such a name is the `:none:` that clears the set, and `:all:` comes before it. */
  lemma NoneIsRead(names: set<string>, s: Sides)
    requires Written(names) && NONE in names
    ensures Avoids(Joint(Items(names), s).target) && Joint(Items(names), s).other <= s.other
  {
    SetOfItems(names);
    SortedIsLined(names);
    assert NONE in Items(names);
    NoneClears(Items(names), s);
  }

  // ---------------------------------------------------------------- the child's format control

  /** A fresh child that is given both printed sets, no_binary first; None if it refuses one. */
  function Child(c: Control): Option<Control> {
    if Dashed(Printed(c.first)) || Dashed(Printed(c.second)) then None
    else Some(Handle(Opt(Second, Printed(c.second)), Handle(Opt(First, Printed(c.first)), Control({}, {}))))
  }

  lemma HandlePrinted(side: Side, names: set<string>, c: Control)
    requires Written(names) && NONE !in names && !Dashed(Printed(names))
    ensures Handle(Opt(side, Printed(names)), c)
         == Unview(side, if names == {} then Sides({}, View(side, c).other)
                         else if ALL in names then Sides({ALL}, {})
                         else Sides(View(side, c).target + names, View(side, c).other - names))
  {
    PrintedItems(names);
    ItemsAreRead(names, View(side, c));
  }

  lemma HandlePrintedNone(side: Side, names: set<string>, c: Control)
    requires Written(names) && NONE in names && !Dashed(Printed(names))
    ensures var r := View(side, Handle(Opt(side, Printed(names)), c));
            Avoids(r.target) && r.other <= View(side, c).other
  {
    PrintedItems(names);
    NoneIsRead(names, View(side, c));
  }

  lemma FirstPrinted(first: set<string>)
    requires Written(first) && NONE !in first && !Dashed(Printed(first))
    ensures Handle(Opt(First, Printed(first)), Control({}, {})) == Control(Core(first), {})
  {
    HandlePrinted(First, first, Control({}, {}));
  }

  lemma SecondPrinted(first: set<string>, second: set<string>)
    requires first !! second && Written(second) && NONE !in second && !Dashed(Printed(second))
    ensures Handle(Opt(Second, Printed(second)), Control(Core(first), {}))
         == if ALL in second then Control({}, {ALL}) else Control(Core(first), second)
  {
    HandlePrinted(Second, second, Control(Core(first), {}));
    assert Core(first) - second == Core(first) || ALL in second;
  }

  /** The sets of a child that refuses neither printed set, where neither has `:none:` as a name. */
  lemma ChildIs(c: Control)
    requires c.first !! c.second && Written(c.first) && Written(c.second)
    ensures Child(c).Some? && NONE !in c.first && NONE !in c.second ==>
              Child(c).value == if ALL in c.second then Control({}, {ALL}) else Control(Core(c.first), c.second)
  {
    if Child(c).Some? && NONE !in c.first && NONE !in c.second {
      FirstPrinted(c.first);
      SecondPrinted(c.first, c.second);
    }
  }

  lemma ForgetsFirst(c: Control)
    requires c.first !! c.second && Written(c.first) && Written(c.second)
    ensures Child(c).Some? && NONE in c.first ==>
              Avoids(Child(c).value.first) && NONE !in Child(c).value.second
  {
    if Child(c).Some? && NONE in c.first {
      var empty := Control({}, {});
      var c1 := Handle(Opt(First, Printed(c.first)), empty);
      HandlePrintedNone(First, c.first, empty);
      assert c1.second == {};
      HandlePrinted(Second, c.second, c1);
    }
  }

  lemma ForgetsSecond(c: Control)
    requires c.first !! c.second && Written(c.first) && Written(c.second)
    ensures Child(c).Some? && NONE in c.second ==>
              Avoids(Child(c).value.second) && NONE !in Child(c).value.first
  {
    if Child(c).Some? && NONE in c.second {
      FirstPrinted(c.first);
      HandlePrintedNone(Second, c.second, Control(Core(c.first), {}));
    }
  }

  lemma NoneIsJudged(c: Control, child: Control)
    requires c.first !! c.second && NONE !in child.first && NONE !in child.second
    requires (NONE in c.first && ALL !in child.first) || (NONE in c.second && ALL !in child.second)
    ensures AllowedFormats(child, NONE) != AllowedFormats(c, NONE)
  {
    if NONE in c.first {
      assert Binary in AllowedFormats(child, NONE) && Binary !in AllowedFormats(c, NONE);
    } else {
      assert Source in AllowedFormats(child, NONE) && Source !in AllowedFormats(c, NONE);
    }
  }

  /** The name `:none:` itself is one that parent and child then judge differently. */
  lemma ChildForgetsNone(c: Control)
    requires c.first !! c.second && Written(c.first) && Written(c.second)
    ensures Child(c).Some? && (NONE in c.first || NONE in c.second) ==>
              AllowedFormats(Child(c).value, NONE) != AllowedFormats(c, NONE)
  {
    ForgetsFirst(c);
    ForgetsSecond(c);
    var child := Child(c);
    if child.Some? && (NONE in c.first || NONE in c.second) { NoneIsJudged(c, child.value); }
  }

  lemma CompareVerdicts(c: Control, child: Control)
    requires c.first !! c.second
    requires child == if ALL in c.second then Control({}, {ALL}) else Control(Core(c.first), c.second)
    ensures (forall name :: AllowedFormats(child, name) == AllowedFormats(c, name))
            <==> !(ALL in c.second && c.first != {})
  {
    if ALL in c.second && c.first != {} {
      var name :| name in c.first;
      assert AllowedFormats(child, name) != AllowedFormats(c, name);
    }
  }

  /** Sets that a child reads as they are meant. */
  predicate Forwardable(c: Control) {
    && NONE !in c.first && NONE !in c.second
    && !(ALL in c.second && c.first != {})
  }

  /** The child builds under the same format control. */
  ghost predicate SameFormats(child: Control, c: Control) {
    forall name :: AllowedFormats(child, name) == AllowedFormats(c, name)
  }

  /**
   Whatever the parent's options: the child refuses exactly a printed set that
   starts with a dash, and otherwise builds under the same format control
   exactly when `:none:` is in neither set, as a name, and no project was
   excepted from `--only-binary :all:`.
   */
  lemma FormatForwardingExact(options: seq<Opt>)
    ensures var c := HandleAll(options, Control({}, {}));
            && (Child(c).None? <==> Dashed(Printed(c.first)) || Dashed(Printed(c.second)))
            && (Child(c).Some? ==> (SameFormats(Child(c).value, c) <==> Forwardable(c)))
  {
    HandleAllKeepsDisjoint(options, Control({}, {}));
    OptionsAreWritten(options, Control({}, {}));
    var c := HandleAll(options, Control({}, {}));
    if Child(c).Some? {
      if NONE in c.first || NONE in c.second {
        ChildForgetsNone(c);
      } else {
        ChildIs(c);
        CompareVerdicts(c, Child(c).value);
      }
    }
  }

  lemma OneName(value: string)
    requires ',' !in value && !Dashed(value) && value != ALL && value != NONE
    ensures HandleAll([Opt(First, value)], Control({}, {})) == Control({Canonicalize(value)}, {})
    ensures Printed({Canonicalize(value)}) == Canonicalize(value)
  {
    assert [Opt(First, value)][1..] == [];
    SingleItem(First, value, Control({}, {}));
    var name := Canonicalize(value);
    assert {name} - {name} == {};
    assert Sorted({name}) == [name];
  }

  /** The child refuses what the parent accepted: `_x` is printed as `-x`. */
  lemma UnderscoreIsRefused()
    ensures var c := HandleAll([Opt(First, "_x")], Control({}, {}));
            c == Control({"-x"}, {}) && Forwardable(c) && Child(c).None?
  {
    assert "_x"[1..] == "x" && Canonicalize("x") == "x";
    assert Canonicalize("_x") == "-x";
    OneName("_x");
  }

  /** And `:NONE:` is printed as the `:none:` that means no name at all. */
  lemma CapitalNoneIsLost()
    ensures var c := HandleAll([Opt(First, ":NONE:")], Control({}, {}));
            c == Control({NONE}, {}) && !Forwardable(c) && Child(c).Some?
  {
    CapitalNone();
    OneName(":NONE:");
  }

  lemma CapitalNone()
    ensures Canonicalize(":NONE:") == NONE
  {
    assert Canonicalize(":") == ":";
    assert Canonicalize("E:") == "e:";
    assert Canonicalize("NE:") == "ne:";
    assert Canonicalize("ONE:") == "one:";
    assert Canonicalize("NONE:") == "none:";
  }

  // ---------------------------------------------------------------- the two classes

  class FormatControl {
    var noBinary: set<string>
    var onlyBinary: set<string>

    constructor ()
      ensures Current() == Control({}, {})
    {
      noBinary, onlyBinary := {}, {};
    }

    function Current(): Control
      reads this
    {
      Control(noBinary, onlyBinary)
    }

    method Assign(side: Side, target: set<string>, other: set<string>)
      modifies this
      ensures Current() == Unview(side, Sides(target, other))
    {
      if side.First? { noBinary, onlyBinary := target, other; } else { noBinary, onlyBinary := other, target; }
    }

    /** A value that starts with `-` is a missing argument: CommandError, and nothing changes. */
    method HandleMutualExcludes(value: string, side: Side) returns (ok: bool)
      modifies this
      ensures ok == !Dashed(value)
      ensures Current() == Handle(Opt(side, value), old(Current()))
      ensures old(noBinary !! onlyBinary) ==> noBinary !! onlyBinary
    {
      if Dashed(value) { return false; }
      ghost var start := View(side, Current());
      if noBinary !! onlyBinary { JointKeepsDisjoint(Split(value), start); }
      var target, other := View(side, Current()).target, View(side, Current()).other;
      var items := Split(value);
      while ALL in items
        invariant Joint(items, Sides(target, other)) == Joint(Split(value), start)
        decreases |items|
      {
        target, other := {ALL}, {};
        items := items[FirstAll(items) + 1..];
        if NONE !in items {
          Assign(side, target, other);
          return true;
        }
      }
      var k := 0;
      while k < |items|
        invariant k <= |items|
        invariant Each(items[k..], Sides(target, other)) == Joint(Split(value), start)
      {
        assert items[k..][1..] == items[k + 1..];
        if items[k] == NONE {
          target := {};
        } else {
          var name := Canonicalize(items[k]);
          other := other - {name};
          target := target + {name};
        }
        k := k + 1;
      }
      Assign(side, target, other);
      ok := true;
    }

    method DisallowBinaries()
      modifies this
      ensures Current() == Control({ALL}, {})
      ensures forall name :: AllowedFormats(Current(), name) == {Source}
    {
      SplitPlain(ALL);
      var _ := HandleMutualExcludes(ALL, First);
    }

    method GetAllowedFormats(name: string) returns (r: set<Format>)
      ensures r == AllowedFormats(Current(), name)
    {
      r := {Binary, Source};
      if name in onlyBinary {
        r := r - {Source};
      } else if name in noBinary {
        r := r - {Binary};
      } else if ALL in onlyBinary {
        r := r - {Source};
      } else if ALL in noBinary {
        r := r - {Binary};
      }
    }
  }

  // ---------------------------------------------------------------- the log of release control

  /** What is logged for an item. */
  function LogItem(side: Side, item: string): Opt {
    Opt(side, if item == ALL || item == NONE then item else Canonicalize(item))
  }

  function LogItems(side: Side, items: seq<string>): seq<Opt> {
    if items == [] then [] else [LogItem(side, items[0])] + LogItems(side, items[1..])
  }

  /** What is logged for the items of one option: nothing that precedes an `:all:`. */
  function LogJoint(side: Side, items: seq<string>): seq<Opt>
    decreases |items|
  {
    if ALL !in items then LogItems(side, items)
    else
      var rest := items[FirstAll(items) + 1..];
      [Opt(side, ALL)] + if NONE !in rest then [] else LogJoint(side, rest)
  }

  function Log(o: Opt): seq<Opt> {
    if Dashed(o.value) then [] else LogJoint(o.side, Split(o.value))
  }

  function LogAll(options: seq<Opt>): seq<Opt> {
    if options == [] then [] else Log(options[0]) + LogAll(options[1..])
  }

  /**
   Replaying what is logged for an item does what the item did, whatever the
   state, exactly for the tidy ones: `:ALL:` is logged as `:all:`, and a name
   that is canonically `-x` as a value that is refused.
   */
  lemma LoggedItemExact(side: Side, item: string)
    requires ',' !in item
    ensures Tidy(item) <==>
            forall s: Sides :: Handle(LogItem(side, item), Unview(side, s)) == Unview(side, One(item, s))
  {
    var logged := LogItem(side, item);
    if Tidy(item) {
      forall s: Sides ensures Handle(logged, Unview(side, s)) == Unview(side, One(item, s)) {
        LoggedItem(side, item, s);
      }
    } else {
      CanonicalizeKeepsCommas(item);
      var s := Sides({}, {"x"});
      if Dashed(logged.value) {
        assert Handle(logged, Unview(side, s)) == Unview(side, s);
      } else {
        SingleItem(side, logged.value, Unview(side, s));
        assert logged.value in One(item, s).target && "x" in One(item, s).other;
      }
      assert Handle(logged, Unview(side, s)) != Unview(side, One(item, s));
    }
  }

  lemma LoggedItem(side: Side, item: string, s: Sides)
    requires Tidy(item) && ',' !in item
    ensures Handle(LogItem(side, item), Unview(side, s)) == Unview(side, One(item, s))
  {
    CanonicalizeIsCanonical(item);
    CanonicalStays(Canonicalize(item));
    CanonicalizeKeepsCommas(item);
    PlainAll();
    SingleItem(side, LogItem(side, item).value, Unview(side, s));
  }

  lemma {:induction false} LoggedItems(side: Side, items: seq<string>, s: Sides)
    requires forall k :: 0 <= k < |items| ==> Tidy(items[k]) && ',' !in items[k]
    ensures HandleAll(LogItems(side, items), Unview(side, s)) == Unview(side, Each(items, s))
  {
    if items == [] {
    } else {
      LoggedItem(side, items[0], s);
      assert LogItems(side, items)[1..] == LogItems(side, items[1..]);
      LoggedItems(side, items[1..], One(items[0], s));
    }
  }

  lemma {:induction false} LoggedJoint(side: Side, items: seq<string>, s: Sides)
    requires AllTidy(Acted(items)) && forall k :: 0 <= k < |items| ==> ',' !in items[k]
    ensures HandleAll(LogJoint(side, items), Unview(side, s)) == Unview(side, Joint(items, s))
    decreases |items|
  {
    if ALL !in items {
      LoggedItems(side, items, s);
    } else {
      var rest := items[FirstAll(items) + 1..];
      LoggedItem(side, ALL, s);
      assert LogJoint(side, items)[1..] == if NONE !in rest then [] else LogJoint(side, rest);
      if NONE in rest { LoggedJoint(side, rest, Sides({ALL}, {})); }
    }
  }

  /**
   The log replayed one entry at a time into any control does what the
   options themselves would have done to it.
   */
  lemma {:induction false} ReplayRebuilds(options: seq<Opt>, c: Control)
    requires forall k :: 0 <= k < |options| ==> TidyOpt(options[k])
    ensures HandleAll(LogAll(options), c) == HandleAll(options, c)
  {
    if options == [] {
    } else {
      var o := options[0];
      if !Dashed(o.value) { LoggedJoint(o.side, Split(o.value), View(o.side, c)); }
      HandleAllConcat(Log(o), LogAll(options[1..]), c);
      ReplayRebuilds(options[1..], Handle(o, c));
    }
  }

  lemma LogShifts(order: seq<Opt>, o: Opt, rest: seq<Opt>)
    ensures order + ([o] + rest) == (order + [o]) + rest
    ensures (order + [o]) + [] == order + [o]
  {
  }

  class ReleaseControl {
    var allReleases: set<string>
    var onlyFinal: set<string>
    var order: seq<Opt>

    constructor ()
      ensures Current() == Control({}, {}) && order == []
    {
      allReleases, onlyFinal, order := {}, {}, [];
    }

    function Current(): Control
      reads this
    {
      Control(allReleases, onlyFinal)
    }

    method Assign(side: Side, target: set<string>, other: set<string>)
      modifies this`allReleases, this`onlyFinal
      ensures Current() == Unview(side, Sides(target, other))
    {
      if side.First? { allReleases, onlyFinal := target, other; } else { allReleases, onlyFinal := other, target; }
    }

    method HandleMutualExcludes(value: string, side: Side) returns (ok: bool)
      modifies this
      ensures ok == !Dashed(value)
      ensures Current() == Handle(Opt(side, value), old(Current()))
      ensures order == old(order) + Log(Opt(side, value))
      ensures old(allReleases !! onlyFinal) ==> allReleases !! onlyFinal
    {
      if Dashed(value) { return false; }
      ghost var start, log := View(side, Current()), Log(Opt(side, value));
      if allReleases !! onlyFinal { JointKeepsDisjoint(Split(value), start); }
      var target, other := View(side, Current()).target, View(side, Current()).other;
      var items := Split(value);
      while ALL in items
        invariant Joint(items, Sides(target, other)) == Joint(Split(value), start)
        invariant order + LogJoint(side, items) == old(order) + log
        decreases |items|
      {
        LogShifts(order, Opt(side, ALL), if NONE !in items[FirstAll(items) + 1..] then [] else LogJoint(side, items[FirstAll(items) + 1..]));
        target, other := {ALL}, {};
        order := order + [Opt(side, ALL)];
        items := items[FirstAll(items) + 1..];
        if NONE !in items {
          Assign(side, target, other);
          return true;
        }
      }
      target, other := AddEach(side, items, target, other);
      Assign(side, target, other);
      ok := true;
    }

    /** The loop over the items once no `:all:` is left among them. */
    method AddEach(side: Side, items: seq<string>, target: set<string>, other: set<string>)
      returns (t: set<string>, o: set<string>)
      requires ALL !in items
      modifies this`order
      ensures Sides(t, o) == Each(items, Sides(target, other))
      ensures order == old(order) + LogItems(side, items)
    {
      t, o := target, other;
      var k := 0;
      while k < |items|
        invariant k <= |items|
        invariant Each(items[k..], Sides(t, o)) == Each(items, Sides(target, other))
        invariant order + LogItems(side, items[k..]) == old(order) + LogItems(side, items)
      {
        assert items[k..][1..] == items[k + 1..];
        LogShifts(order, LogItem(side, items[k]), LogItems(side, items[k + 1..]));
        if items[k] == NONE {
          t := {};
          order := order + [Opt(side, NONE)];
        } else {
          var name := Canonicalize(items[k]);
          o := o - {name};
          t := t + {name};
          order := order + [Opt(side, name)];
        }
        k := k + 1;
      }
      assert order + [] == order;
    }

    method GetOrderedArgs() returns (r: seq<Opt>)
      ensures r == order
    {
      r := order;
    }

    /**
     `--pre`, which is refused beside the other options and is not logged: a
     child that replays the log knows nothing of it.
     */
    method ApplyPre() returns (ok: bool)
      modifies this`allReleases
      ensures ok == (old(Current()) == Control({}, {}))
      ensures Current() == if ok then Control({ALL}, {}) else old(Current())
      ensures ok && HandleAll(order, Control({}, {})) == old(Current()) ==> forall name ::
                AllowsPrereleases(Current(), name) == Allowed
                && AllowsPrereleases(HandleAll(order, Control({}, {})), name) == Default
    {
      if allReleases != {} || onlyFinal != {} { return false; }
      allReleases := allReleases + {ALL};
      ok := true;
    }
  }

  // ---------------------------------------------------------------- the child's command line

  datatype Controls = Controls(format: Control, release: Control)

  /** The long options: no-binary and only-binary, all-releases and only-final. */
  function Flag(release: bool, side: Side): (r: string)
    ensures |r| == match (release, side)
                   case (false, First) => 11
                   case (false, Second) => 13
                   case (true, First) => 14
                   case (true, Second) => 12
  {
    match (release, side)
    case (false, First) => "--no-binary"
    case (false, Second) => "--only-binary"
    case (true, First) => "--all-releases"
    case (true, Second) => "--only-final"
  }

  function FormatArgs(c: Control): seq<string> {
    [Flag(false, First), Printed(c.first), Flag(false, Second), Printed(c.second)]
  }

  function ReleaseArgs(order: seq<Opt>): (r: seq<string>)
    ensures |r| == 2 * |order|
  {
    if order == [] then [] else [Flag(true, order[0].side), order[0].value] + ReleaseArgs(order[1..])
  }

  /** What the child's option parser makes of such a command line, pair by pair; None if a value is refused. */
  function Parse(args: seq<string>, c: Controls): Option<Controls>
    decreases |args|
  {
    if |args| < 2 then Some(c)
    else if Dashed(args[1]) then None
    else if args[0] == Flag(false, First) then
      Parse(args[2..], c.(format := Handle(Opt(First, args[1]), c.format)))
    else if args[0] == Flag(false, Second) then
      Parse(args[2..], c.(format := Handle(Opt(Second, args[1]), c.format)))
    else if args[0] == Flag(true, First) then
      Parse(args[2..], c.(release := Handle(Opt(First, args[1]), c.release)))
    else if args[0] == Flag(true, Second) then
      Parse(args[2..], c.(release := Handle(Opt(Second, args[1]), c.release)))
    else Parse(args[2..], c)
  }

  predicate NoneDashed(order: seq<Opt>) { forall k :: 0 <= k < |order| ==> !Dashed(order[k].value) }

  lemma {:induction false} ReleaseArgsParsed(order: seq<Opt>, c: Controls)
    requires NoneDashed(order)
    ensures Parse(ReleaseArgs(order), c) == Some(c.(release := HandleAll(order, c.release)))
  {
    if order == [] {
    } else {
      assert ReleaseArgs(order)[2..] == ReleaseArgs(order[1..]);
      ReleaseArgsParsed(order[1..], c.(release := Handle(order[0], c.release)));
    }
  }

  lemma {:induction false} TidyItemsLogNoDash(side: Side, items: seq<string>)
    requires AllTidy(items)
    ensures NoneDashed(LogItems(side, items))
  {
    if items == [] {
    } else {
      assert AllTidy(items[1..]);
      TidyItemsLogNoDash(side, items[1..]);
      PlainAll();
    }
  }

  lemma {:induction false} TidyValuesLogNoDash(side: Side, items: seq<string>)
    requires AllTidy(Acted(items))
    ensures NoneDashed(LogJoint(side, items))
    decreases |items|
  {
    PlainAll();
    if ALL !in items {
      TidyItemsLogNoDash(side, items);
    } else {
      var rest := items[FirstAll(items) + 1..];
      if NONE in rest { TidyValuesLogNoDash(side, rest); }
    }
  }

  lemma {:induction false} TidyOptionsLogNoDash(options: seq<Opt>)
    requires forall k :: 0 <= k < |options| ==> TidyOpt(options[k])
    ensures NoneDashed(LogAll(options))
  {
    if options == [] {
    } else {
      if !Dashed(options[0].value) { TidyValuesLogNoDash(options[0].side, Split(options[0].value)); }
      TidyOptionsLogNoDash(options[1..]);
    }
  }

  lemma FormatArgsParsed(first: string, second: string, rest: seq<string>, c: Controls)
    ensures Parse([Flag(false, First), first, Flag(false, Second), second] + rest, c)
         == if Dashed(first) || Dashed(second) then None
            else Parse(rest, c.(format := Handle(Opt(Second, second), Handle(Opt(First, first), c.format))))
  {
    var tail := [Flag(false, Second), second] + rest;
    var args := [Flag(false, First), first, Flag(false, Second), second] + rest;
    assert args[2..] == tail;
    assert tail[2..] == rest;
  }

  lemma {:induction false} ReleaseArgAt(order: seq<Opt>, k: nat)
    requires k < |order|
    ensures ReleaseArgs(order)[2 * k] == (if order[k].side.First? then "--all-releases" else "--only-final")
    ensures ReleaseArgs(order)[2 * k + 1] == order[k].value
  {
    if k > 0 {
      ReleaseArgAt(order[1..], k - 1);
      var first, rest := [Flag(true, order[0].side), order[0].value], ReleaseArgs(order[1..]);
      assert ReleaseArgs(order) == first + rest;
      assert (first + rest)[2 * k] == rest[2 * (k - 1)] && (first + rest)[2 * k + 1] == rest[2 * (k - 1) + 1];
    }
  }

  lemma ItemBehind(a: seq<string>, b: seq<string>, k: nat)
    requires k < |b|
    ensures (a + b)[|a| + k] == b[k]
  {
  }

  /** The two sets of format control by name ... */
  lemma FirstArgsMean(c: Control, order: seq<Opt>)
    ensures var args := FormatArgs(c) + ReleaseArgs(order);
            && |args| == 4 + 2 * |order|
            && args[0] == "--no-binary" && args[1] == Printed(c.first)
            && args[2] == "--only-binary" && args[3] == Printed(c.second)
  {
  }

  /** ... then the log of release control in order. */
  lemma LaterArgsMean(c: Control, order: seq<Opt>, k: nat)
    requires k < |order|
    ensures var args := FormatArgs(c) + ReleaseArgs(order);
            && args[4 + 2 * k] == (if order[k].side.First? then "--all-releases" else "--only-final")
            && args[5 + 2 * k] == order[k].value
  {
    ReleaseArgAt(order, k);
    ItemBehind(FormatArgs(c), ReleaseArgs(order), 2 * k);
    ItemBehind(FormatArgs(c), ReleaseArgs(order), 2 * k + 1);
  }

  /**
   The arguments a build subprocess is given for the two controls.  `release`
   is null when the finder has none.
   */
  method ControlArgs(format: FormatControl, release: ReleaseControl?) returns (args: seq<string>)
    ensures args == FormatArgs(format.Current()) + (if release == null then [] else ReleaseArgs(release.order))
  {
    args := [];
    args := args + [Flag(false, First), Printed(format.noBinary)];
    args := args + [Flag(false, Second), Printed(format.onlyBinary)];
    assert args == FormatArgs(format.Current()) + [];
    if release != null {
      var order := release.GetOrderedArgs();
      ghost var before := args;
      var k := 0;
      while k < |order|
        invariant k <= |order|
        invariant before + ReleaseArgs(order) == args + ReleaseArgs(order[k..])
      {
        ghost var rest := ReleaseArgs(order[k + 1..]);
        assert order[k..][1..] == order[k + 1..];
        assert args + ([Flag(true, order[k].side), order[k].value] + rest)
            == (args + [Flag(true, order[k].side), order[k].value]) + rest;
        args := args + [Flag(true, order[k].side), order[k].value];
        k := k + 1;
      }
      assert order[k..] == [] && args + [] == args;
    }
  }

  /**
   The child refuses its arguments exactly if a printed set starts with a
   dash.  Otherwise its release control is the parent's, and its format
   control decides alike exactly when the parent's is forwardable.
   */
  lemma ForwardedControls(formats: seq<Opt>, releases: seq<Opt>)
    requires forall k :: 0 <= k < |releases| ==> TidyOpt(releases[k])
    ensures var format, unset := HandleAll(formats, Control({}, {})), Controls(Control({}, {}), Control({}, {}));
            var child := Parse(FormatArgs(format) + ReleaseArgs(LogAll(releases)), unset);
            && (child.None? <==> Dashed(Printed(format.first)) || Dashed(Printed(format.second)))
            && (child.Some? ==>
                  && child.value.release == HandleAll(releases, Control({}, {}))
                  && (SameFormats(child.value.format, format) <==> Forwardable(format)))
  {
    var format, unset := HandleAll(formats, Control({}, {})), Controls(Control({}, {}), Control({}, {}));
    FormatForwardingExact(formats);
    var order := LogAll(releases);
    FormatArgsParsed(Printed(format.first), Printed(format.second), ReleaseArgs(order), unset);
    TidyOptionsLogNoDash(releases);
    if Child(format).Some? { ReleaseArgsParsed(order, unset.(format := Child(format).value)); }
    ReplayRebuilds(releases, Control({}, {}));
  }
}
