/**
 The option values that format control and release control share
 (models/format_control.py, models/release_control.py): a comma list of names,
 `:all:` and `:none:` that adds to one set and takes away from the other.
 */
module Excludes {
  import opened Names

  const ALL := ":all:"
  const NONE := ":none:"

  /** The set an option adds to, and its counterpart. */
  datatype Sides = Sides(target: set<string>, other: set<string>)

  // ---------------------------------------------------------------- meaning of a value

  /** What an option with one item does. */
  function One(item: string, s: Sides): Sides {
    if item == ALL then Sides({ALL}, {})
    else if item == NONE then Sides({}, s.other)
    else Sides(s.target + {Canonicalize(item)}, s.other - {Canonicalize(item)})
  }

  /** One option per item, in order. */
  function Each(items: seq<string>, s: Sides): Sides {
    if items == [] then s else Each(items[1..], One(items[0], s))
  }

  function FirstAll(items: seq<string>): (k: nat)
    requires ALL in items
    ensures k < |items| && items[k] == ALL && ALL !in items[..k]
  {
    if items[0] == ALL then 0 else 1 + FirstAll(items[1..])
  }

  /** All items in one option: what follows an `:all:` counts only if a `:none:` is to come. */
  function Joint(items: seq<string>, s: Sides): Sides
    decreases |items|
  {
    if ALL !in items then Each(items, s)
    else
      var rest := items[FirstAll(items) + 1..];
      if NONE !in rest then Sides({ALL}, {}) else Joint(rest, Sides({ALL}, {}))
  }

  // ---------------------------------------------------------------- equivalent states

  /** A set with `:all:` says the same whatever else it holds. */
  function Core(names: set<string>): set<string> {
    if ALL in names then {ALL} else names
  }

  predicate Disjoint(s: Sides) { s.target !! s.other }

  /** States no option and no query can tell apart. */
  predicate Alike(s: Sides, s': Sides) {
    && Disjoint(s) && Disjoint(s')
    && Core(s.target) == Core(s'.target) && Core(s.other) == Core(s'.other)
  }

  /** `:all:` in a spelling that only canonical form gives away. */
  predicate Disguised(item: string) {
    item != ALL && item != NONE && Canonicalize(item) == ALL
  }

  predicate Dashed(value: string) { value != "" && value[0] == '-' }

  lemma {:induction false} EachConcat(a: seq<string>, b: seq<string>, s: Sides)
    ensures Each(a + b, s) == Each(b, Each(a, s))
  {
    if a == [] {
      assert a + b == b;
    } else {
      assert (a + b)[1..] == a[1..] + b;
      EachConcat(a[1..], b, One(a[0], s));
    }
  }

  lemma {:induction false} EachKeepsDisjoint(items: seq<string>, s: Sides)
    requires Disjoint(s)
    ensures Disjoint(Each(items, s))
  {
    if items == [] {
    } else {
      EachKeepsDisjoint(items[1..], One(items[0], s));
    }
  }

  /** Whatever the items, the two sets stay disjoint, so at most one holds `:all:`. */
  lemma {:induction false} JointKeepsDisjoint(items: seq<string>, s: Sides)
    requires Disjoint(s)
    ensures Disjoint(Joint(items, s))
    decreases |items|
  {
    if ALL in items {
      var rest := items[FirstAll(items) + 1..];
      if NONE in rest { JointKeepsDisjoint(rest, Sides({ALL}, {})); }
    } else {
      EachKeepsDisjoint(items, s);
    }
  }

  lemma {:induction false} EachAlike(items: seq<string>, s: Sides, s': Sides)
    requires Alike(s, s') && forall k :: 0 <= k < |items| ==> !Disguised(items[k])
    ensures Alike(Each(items, s), Each(items, s'))
  {
    if items == [] {
    } else {
      EachAlike(items[1..], One(items[0], s), One(items[0], s'));
    }
  }

  /** After `:all:`, names change nothing that could be observed. */
  lemma {:induction false} NamesAfterAll(items: seq<string>, s: Sides)
    requires ALL in s.target && s.other == {} && NONE !in items
    ensures ALL in Each(items, s).target && Each(items, s).other == {}
  {
    if items == [] {
    } else {
      NamesAfterAll(items[1..], One(items[0], s));
    }
  }

  /** What precedes `:all:` does not matter. */
  lemma EachFromAll(items: seq<string>, s: Sides)
    requires ALL in items
    ensures Each(items, s) == Each(items[FirstAll(items) + 1..], Sides({ALL}, {}))
  {
    var k := FirstAll(items);
    assert items == items[..k] + items[k..];
    EachConcat(items[..k], items[k..], s);
    assert items[k..][1..] == items[k + 1..];
  }

  /** One option with all items leads where an option per item leads. */
  lemma {:induction false} JointIsEach(items: seq<string>, s: Sides)
    requires Disjoint(s)
    ensures Alike(Joint(items, s), Each(items, s))
    decreases |items|
  {
    JointKeepsDisjoint(items, s);
    EachKeepsDisjoint(items, s);
    if ALL in items {
      var rest := items[FirstAll(items) + 1..];
      EachFromAll(items, s);
      if NONE !in rest {
        NamesAfterAll(rest, Sides({ALL}, {}));
      } else {
        JointIsEach(rest, Sides({ALL}, {}));
      }
    }
  }

  /** Values that cannot tell equivalent states apart. */
  predicate Discreet(items: seq<string>) {
    ALL in items || forall k :: 0 <= k < |items| ==> !Disguised(items[k])
  }

  lemma JointAlike(items: seq<string>, s: Sides, s': Sides)
    requires Alike(s, s') && Discreet(items)
    ensures Alike(Joint(items, s), Joint(items, s'))
  {
    JointKeepsDisjoint(items, s);
    JointKeepsDisjoint(items, s');
    if ALL !in items { EachAlike(items, s, s'); }
  }

  /** A name that no item of the list stands for. */
  lemma {:induction false} NewName(items: seq<string>) returns (n: string)
    ensures forall k :: 0 <= k < |items| ==> |Canonicalize(items[k])| < |n|
    ensures |ALL| < |n|
  {
    if items == [] {
      n := ALL + "x";
    } else {
      n := NewName(items[1..]);
      n := n + Canonicalize(items[0]) + "x";
      forall k | 0 <= k < |items| ensures |Canonicalize(items[k])| < |n| {
        if k > 0 { assert items[k] == items[1..][k - 1]; }
      }
    }
  }

  /**
   What the other set keeps of a name that is hidden behind `:all:`: the name
   stays, and a disguised `:all:` takes its cover away.
   */
  lemma {:induction false} HiddenNameStays(items: seq<string>, s: Sides, s': Sides, n: string)
    requires ALL !in items && forall k :: 0 <= k < |items| ==> Canonicalize(items[k]) != n
    requires n in s'.other && s.other <= {ALL}
    requires ALL in s.other ==> exists k :: 0 <= k < |items| && Disguised(items[k])
    ensures n in Each(items, s').other && Each(items, s).other == {}
  {
    if items == [] {
      assert s.other == {};
    } else {
      var rest := items[1..];
      assert forall x :: x in rest ==> x in items;
      if ALL in One(items[0], s).other {
        var k :| 0 <= k < |items| && Disguised(items[k]);
        assert rest[k - 1] == items[k];
      }
      HiddenNameStays(rest, One(items[0], s), One(items[0], s'), n);
    }
  }

  /** Two states that any other value tells apart, though no verdict does. */
  lemma ToldApart(items: seq<string>) returns (s: Sides, s': Sides)
    requires !Discreet(items)
    ensures Alike(s, s') && !Alike(Joint(items, s), Joint(items, s'))
  {
    var n := NewName(items);
    s, s' := Sides({}, {ALL}), Sides({}, {ALL, n});
    HiddenNameStays(items, s, s', n);
    assert Core(Each(items, s).other) == {} && Core(Each(items, s').other) != {};
  }

  /**
   Exactly the values without a disguised `:all:`, or with `:all:` itself,
   never tell equivalent states apart.
   */
  lemma DiscreetExact(items: seq<string>)
    ensures (forall s, s' :: Alike(s, s') ==> Alike(Joint(items, s), Joint(items, s'))) <==> Discreet(items)
  {
    if Discreet(items) {
      forall s, s' | Alike(s, s') ensures Alike(Joint(items, s), Joint(items, s')) { JointAlike(items, s, s'); }
    } else {
      var s, s' := ToldApart(items);
      assert Alike(s, s') && !Alike(Joint(items, s), Joint(items, s'));
    }
  }

  /** For one item: exactly a disguised `:all:` can tell equivalent states apart. */
  lemma ItemExact(item: string)
    ensures (forall s, s' :: Alike(s, s') ==> Alike(One(item, s), One(item, s'))) <==> !Disguised(item)
  {
    if Disguised(item) {
      var s, s' := Sides({}, {ALL}), Sides({}, {ALL, "n"});
      assert Alike(s, s');
      assert One(item, s).other == {} && "n" in One(item, s').other;
      assert !Alike(One(item, s), One(item, s'));
    }
  }

  // ---------------------------------------------------------------- both sides of a control

  /** A control with its two sets and the option that adds to the first or to the second. */
  datatype Control = Control(first: set<string>, second: set<string>)

  datatype Side = First | Second

  datatype Opt = Opt(side: Side, value: string)

  function View(side: Side, c: Control): Sides {
    if side.First? then Sides(c.first, c.second) else Sides(c.second, c.first)
  }

  function Unview(side: Side, s: Sides): Control {
    if side.First? then Control(s.target, s.other) else Control(s.other, s.target)
  }

  /** An option on the command line; a value that starts with `-` is refused. */
  function Handle(o: Opt, c: Control): Control {
    if Dashed(o.value) then c else Unview(o.side, Joint(Split(o.value), View(o.side, c)))
  }

  function HandleAll(options: seq<Opt>, c: Control): Control {
    if options == [] then c else HandleAll(options[1..], Handle(options[0], c))
  }

  /** Every item of the value could be the value of an option of its own. */
  predicate Separable(o: Opt) {
    forall k :: 0 <= k < |Split(o.value)| ==> !Dashed(Split(o.value)[k])
  }

  /** An option that is refused, or cannot tell equivalent states apart. */
  predicate DiscreetOpt(o: Opt) { Dashed(o.value) || Discreet(Split(o.value)) }

  predicate AlikeControls(c: Control, c': Control) { Alike(View(First, c), View(First, c')) }

  /** The items of one option as options of their own. */
  function Separate(side: Side, items: seq<string>): seq<Opt> {
    seq(|items|, k requires 0 <= k < |items| => Opt(side, items[k]))
  }

  lemma SingleItem(side: Side, item: string, c: Control)
    requires ',' !in item && !Dashed(item)
    ensures Handle(Opt(side, item), c) == Unview(side, One(item, View(side, c)))
  {
    SplitPlain(item);
    if item == ALL {
      assert [item][1..] == [];
    } else {
      assert Each([item][1..], One(item, View(side, c))) == One(item, View(side, c));
    }
  }

  lemma {:induction false} SeparateIsEach(side: Side, items: seq<string>, c: Control)
    requires forall k :: 0 <= k < |items| ==> ',' !in items[k] && !Dashed(items[k])
    ensures HandleAll(Separate(side, items), c) == Unview(side, Each(items, View(side, c)))
  {
    if items == [] {
    } else {
      SingleItem(side, items[0], c);
      assert Separate(side, items)[1..] == Separate(side, items[1..]);
      SeparateIsEach(side, items[1..], Handle(Opt(side, items[0]), c));
    }
  }

  lemma {:induction false} HandleAllKeepsDisjoint(options: seq<Opt>, c: Control)
    requires c.first !! c.second
    ensures HandleAll(options, c).first !! HandleAll(options, c).second
  {
    if options == [] {
    } else {
      JointKeepsDisjoint(Split(options[0].value), View(options[0].side, c));
      HandleAllKeepsDisjoint(options[1..], Handle(options[0], c));
    }
  }

  lemma {:induction false} HandleAllAlike(options: seq<Opt>, c: Control, c': Control)
    requires AlikeControls(c, c') && forall k :: 0 <= k < |options| ==> DiscreetOpt(options[k])
    ensures AlikeControls(HandleAll(options, c), HandleAll(options, c'))
  {
    if options == [] {
    } else {
      var o := options[0];
      if !Dashed(o.value) { JointAlike(Split(o.value), View(o.side, c), View(o.side, c')); }
      HandleAllAlike(options[1..], Handle(o, c), Handle(o, c'));
    }
  }

  /**
   A comma list and its items as separate options leave the control in states
   that stay equivalent under any later options.
   */
  lemma {:induction false} CommaListIsSeparateOptions(c: Control, o: Opt, later: seq<Opt>)
    requires c.first !! c.second && Separable(o)
    requires forall k :: 0 <= k < |later| ==> DiscreetOpt(later[k])
    ensures AlikeControls(HandleAll(later, Handle(o, c)),
                          HandleAll(later, HandleAll(Separate(o.side, Split(o.value)), c)))
  {
    var items := Split(o.value);
    JointIsEach(items, View(o.side, c));
    SeparateIsEach(o.side, items, c);
    HandleAllAlike(later, Handle(o, c), HandleAll(Separate(o.side, items), c));
  }

  lemma CapitalAll()
    ensures Canonicalize(":ALL:") == ALL
  {
    assert Canonicalize(":") == ":";
    assert Canonicalize("L:") == "l:";
    assert Canonicalize("LL:") == "ll:";
    assert Canonicalize("ALL:") == "all:";
  }

  /**
   A spelling of `:all:` that escapes the test for it, but not canonical form,
   breaks this: as an option for the other set it can tell the two ways apart
   for every name `n`.  With `CapitalAll`, `:ALL:` is such a spelling.
   */
  lemma DisguisedAllIsDifferent(x: string, n: string)
    requires x != ALL && x != NONE && Canonicalize(x) == ALL
    requires n != ALL && n != NONE && Canonicalize(n) == n
    ensures var joint, each := Joint([ALL, n], Sides({}, {})), Each([ALL, n], Sides({}, {}));
            && Alike(joint, each)
            && One(x, Sides(joint.other, joint.target)) == Sides({ALL}, {})
            && One(x, Sides(each.other, each.target)) == Sides({ALL}, {n})
  {
    assert [ALL, n][1..] == [n] && [n][1..] == [];
    assert FirstAll([ALL, n]) == 0;
    assert Each([n], Sides({ALL}, {})) == Sides({ALL, n}, {});
  }
}
