/**
 Editing a configuration file (configuration.py): the values in memory and the
 parser that will be written must not drift apart.  Keys and option names are
 ASCII; an option name is what the parser stores it under.
 */
module Configuration {
  import opened Basics

  type Options = map<string, string>

  // ---------------------------------------------------------------- names and keys

  function Lower(c: char): char {
    if 'A' <= c <= 'Z' then (c as int + 32) as char else if c == '_' then '-' else c
  }

  function LowerAll(s: string): (r: string)
    ensures |r| == |s| && forall i :: 0 <= i < |s| ==> r[i] == Lower(s[i])
  {
    seq(|s|, i requires 0 <= i < |s| => Lower(s[i]))
  }

  /** Lower case, dashes for underscores, and no leading `--`. */
  function Normalize(name: string): string {
    var s := LowerAll(name);
    if |s| >= 2 && s[0] == s[1] == '-' then s[2..] else s
  }

  /**
   A name keeps its letters in lower case, its underscores as dashes and
   everything else as it is, but for two leading dashes.
   */
  lemma NormalizeMeans(name: string)
    ensures var r, cut := Normalize(name), if |name| >= 2 && name[0] in "-_" && name[1] in "-_" then 2 else 0;
            && |r| == |name| - cut
            && forall i :: 0 <= i < |r| ==>
                 var c := name[cut + i];
                 r[i] == if c == '_' then '-' else if 'A' <= c <= 'Z' then c - 'A' + 'a' else c
  {
  }

  function Key(section: string, name: string): string { section + "." + name }

  /** `name.split(".", 1)`; None stands for the ConfigurationError of a key without a dot. */
  function Disassemble(key: string): (r: Option<(string, string)>)
    ensures r.None? <==> '.' !in key
    ensures r.Some? ==> key == Key(r.value.0, r.value.1) && '.' !in r.value.0
  {
    if key == "" then None
    else if key[0] == '.' then Some(("", key[1..]))
    else
      match Disassemble(key[1..])
      case None => None
      case Some((section, name)) => Some(([key[0]] + section, name))
  }

  lemma {:induction false} DisassembleKey(section: string, name: string)
    requires '.' !in section
    ensures Disassemble(Key(section, name)) == Some((section, name))
  {
    if section == "" {
      assert Key(section, name)[1..] == name;
    } else {
      assert Key(section, name)[1..] == Key(section[1..], name);
      DisassembleKey(section[1..], name);
      assert section == [section[0]] + section[1..];
    }
  }

  // ---------------------------------------------------------------- a file and its image in memory

  /**
   What the parser holds, with the options of its DEFAULT section, and what is
   kept in memory; `loaded` tells whether memory has an entry for the file.
   */
  datatype File = File(sections: map<string, Options>, defaults: Options, memory: Options, loaded: bool)

  /** `parser.items(section)`: options of the section over the defaults. */
  function Items(f: File, section: string): Options
    requires section in f.sections
  {
    f.defaults + f.sections[section]
  }

  predicate Holds(f: File, s: string, o: string) { s in f.sections && o in Items(f, s) }

  /** Section names without a dot, option names as they will be read again. */
  ghost predicate Tidy(f: File) {
    && (forall s :: s in f.sections ==> '.' !in s)
    && (forall s, o :: Holds(f, s, o) ==> Normalize(o) == o)
  }

  /** The option is in memory, under its key and with its value. */
  predicate Kept(f: File, s: string, o: string)
    requires Holds(f, s, o)
  {
    Key(s, Normalize(o)) in f.memory && f.memory[Key(s, Normalize(o))] == Items(f, s)[o]
  }

  ghost predicate Backed(f: File, k: string) {
    exists s, o :: Holds(f, s, o) && k == Key(s, Normalize(o))
  }

  /** Memory holds what loading the written parser would give: every option under its key, and no more. */
  ghost predicate InSync(f: File) {
    && (forall s, o :: Holds(f, s, o) ==> Kept(f, s, o))
    && (forall k :: k in f.memory ==> Backed(f, k))
  }

  function SectionOf(f: File, section: string): Options {
    if section in f.sections then f.sections[section] else map[]
  }

  /** Where the parser keeps the options of a section: those of the nameless one are its defaults. */
  function OptionsOf(f: File, section: string): Options
    requires section in f.sections
  {
    if section == "" then f.defaults else f.sections[section]
  }

  function Set(f: File, section: string, name: string, value: string): File {
    var was := SectionOf(f, section);
    f.(sections := f.sections[section := if section == "" then was else was[name := value]],
       defaults := if section == "" then f.defaults[name := value] else f.defaults,
       memory := f.memory[Key(section, name) := value], loaded := true)
  }

  /** What a parser gives for an option of a section: for the nameless one, a default. */
  function Looked(sections: map<string, Options>, defaults: Options, s: string, o: string): Option<string> {
    if s == "" then (if o in defaults then Some(defaults[o]) else None)
    else if s in sections && o in sections[s] then Some(sections[s][o])
    else None
  }

  /** Exactly the one option and the one key get the value; everything else is what it was. */
  lemma SetMeans(f: File, section: string, name: string, value: string)
    ensures var f' := Set(f, section, name, value);
            && section in f'.sections
            && (forall s :: s in f'.sections <==> s in f.sections || s == section)
            && (forall s, o :: Looked(f'.sections, f'.defaults, s, o) ==
                  if s == section && o == name then Some(value) else Looked(f.sections, f.defaults, s, o))
            && (section != "" ==> f'.defaults == f.defaults)
            && (section == "" ==> f'.sections[""] == if "" in f.sections then f.sections[""] else map[])
            && (forall k :: k in f'.memory <==> k in f.memory || k == section + "." + name)
            && (forall k :: k in f'.memory ==> f'.memory[k] == if k == section + "." + name then value else f.memory[k])
  {
  }

  /** The section goes once it has no items left, of its own or by default. */
  function Unset(f: File, section: string, name: string): File
    requires section in f.sections && name in OptionsOf(f, section)
  {
    var options := OptionsOf(f, section) - {name};
    var g := if section == "" then f.(defaults := options) else f.(sections := f.sections[section := options]);
    g.(sections := if Items(g, section) == map[] then g.sections - {section} else g.sections,
       memory := f.memory - {Key(section, name)})
  }

  lemma ItemsMean(f: File, section: string)
    requires section in f.sections
    ensures forall o :: o in Items(f, section) <==> o in f.sections[section] || o in f.defaults
    ensures forall o :: o in Items(f, section) ==>
              Items(f, section)[o] == if o in f.sections[section] then f.sections[section][o] else f.defaults[o]
    ensures Items(f, section) == map[] ==> f.sections[section] == map[] && f.defaults == map[]
  {
    if Items(f, section) == map[] {
      assert (f.defaults + f.sections[section]).Keys == {};
      assert f.sections[section].Keys == {} && f.defaults.Keys == {};
    }
  }

  /** Exactly the one option and the one key go, and the section if nothing is left for it. */
  lemma UnsetMeans(f: File, section: string, name: string)
    requires section in f.sections && name in OptionsOf(f, section)
    ensures var f' := Unset(f, section, name);
            && (forall s, o :: Looked(f'.sections, f'.defaults, s, o) ==
                  if s == section && o == name then None else Looked(f.sections, f.defaults, s, o))
            && (forall s :: s in f'.sections ==> s in f.sections)
            && (forall s :: s in f.sections && s != section ==> s in f'.sections)
            && (section in f'.sections <==>
                  f'.defaults != map[] || exists o :: o in f.sections[section] && (o != name || section == ""))
            && (section != "" ==> f'.defaults == f.defaults)
            && (section == "" && "" in f'.sections ==> f'.sections[""] == f.sections[""])
            && (forall k :: k in f'.memory <==> k in f.memory && k != section + "." + name)
            && (forall k :: k in f'.memory ==> f'.memory[k] == f.memory[k])
  {
    var options := OptionsOf(f, section) - {name};
    var g := if section == "" then f.(defaults := options) else f.(sections := f.sections[section := options]);
    ItemsMean(g, section);
    if Items(g, section) != map[] {
      var o :| o in Items(g, section);
      assert o in g.defaults || o in g.sections[section];
    }
    forall o | o in f.sections[section] && (o != name || section == "") ensures o in g.sections[section] {}
  }

  datatype Edit = SetValue(key: string, value: string) | UnsetValue(key: string)

  datatype Outcome = Done | ConfigurationError | KeyError

  /** The key an edit works on, as `_normalize_name` leaves it. */
  function Target(e: Edit): Option<(string, string)> { Disassemble(Normalize(e.key)) }

  function OutcomeOf(e: Edit, f: File): Outcome {
    match e
    case SetValue(_, _) => if Target(e).None? then ConfigurationError else Done
    case UnsetValue(_) =>
      if !f.loaded then KeyError
      else if Normalize(e.key) !in f.memory || Target(e).None? then ConfigurationError
      else
        var (s, n) := Target(e).value;
        if s in f.sections && n in OptionsOf(f, s) then Done else ConfigurationError
  }

  function Edited(e: Edit, f: File): File {
    if OutcomeOf(e, f) != Done then f
    else
      var (s, n) := Target(e).value;
      match e
      case SetValue(_, value) => Set(f, s, n, value)
      case UnsetValue(_) => Unset(f, s, n)
  }

  /** An option of a section with a name, not spelt with leading dashes of its own. */
  predicate TidyEdit(e: Edit) {
    Target(e).Some? ==> Target(e).value.0 != "" && Normalize(Target(e).value.1) == Target(e).value.1
  }

  lemma KeyInjective(s: string, o: string, s': string, o': string)
    requires '.' !in s && '.' !in s'
    ensures Key(s, o) == Key(s', o') <==> s == s' && o == o'
  {
    DisassembleKey(s, o);
    DisassembleKey(s', o');
  }

  lemma SetKeeps(f: File, section: string, name: string, value: string, s: string, o: string)
    requires Tidy(f) && InSync(f) && f.defaults == map[]
    requires '.' !in section && section != "" && Normalize(name) == name && Holds(Set(f, section, name, value), s, o)
    ensures Normalize(o) == o && Kept(Set(f, section, name, value), s, o)
  {
    if !(s == section && o == name) {
      assert Holds(f, s, o) && Kept(f, s, o);
      KeyInjective(s, o, section, name);
    }
  }

  lemma SetHolds(f: File, section: string, name: string, value: string, s: string, o: string)
    requires Holds(f, s, o) || (s == section && o == name)
    ensures Holds(Set(f, section, name, value), s, o)
  {
  }

  lemma SetBacks(f: File, section: string, name: string, value: string, k: string)
    requires Backed(f, k) || k == Key(section, Normalize(name))
    ensures Backed(Set(f, section, name, value), k)
  {
    if k == Key(section, Normalize(name)) {
      SetHolds(f, section, name, value, section, name);
    } else {
      var s, o :| Holds(f, s, o) && k == Key(s, Normalize(o));
      SetHolds(f, section, name, value, s, o);
    }
  }

  lemma SetKeepsSync(f: File, section: string, name: string, value: string)
    requires Tidy(f) && InSync(f) && f.defaults == map[]
    requires '.' !in section && section != "" && Normalize(name) == name
    ensures Tidy(Set(f, section, name, value)) && InSync(Set(f, section, name, value))
  {
    var f' := Set(f, section, name, value);
    forall s, o | Holds(f', s, o) ensures Normalize(o) == o && Kept(f', s, o) { SetKeeps(f, section, name, value, s, o); }
    forall k | k in f'.memory ensures Backed(f', k) { SetBacks(f, section, name, value, k); }
  }

  lemma UnsetKeeps(f: File, section: string, name: string, s: string, o: string)
    requires Tidy(f) && InSync(f) && f.defaults == map[] && section in f.sections && name in OptionsOf(f, section)
    requires Holds(Unset(f, section, name), s, o)
    ensures Normalize(o) == o && Kept(Unset(f, section, name), s, o)
  {
    assert Holds(f, s, o) && Kept(f, s, o) && !(s == section && o == name);
    KeyInjective(s, o, section, name);
  }

  lemma UnsetHolds(f: File, section: string, name: string, s: string, o: string)
    requires f.defaults == map[] && section in f.sections && name in OptionsOf(f, section)
    requires Holds(f, s, o) && !(s == section && o == name)
    ensures Holds(Unset(f, section, name), s, o)
  {
    if s == section { assert o in f.sections[section] - {name}; }
  }

  lemma UnsetBacks(f: File, section: string, name: string, k: string)
    requires f.defaults == map[] && section in f.sections && name in OptionsOf(f, section)
    requires Backed(f, k) && k != Key(section, Normalize(name))
    ensures Backed(Unset(f, section, name), k)
  {
    var s, o :| Holds(f, s, o) && k == Key(s, Normalize(o));
    UnsetHolds(f, section, name, s, o);
  }

  lemma UnsetKeepsSync(f: File, section: string, name: string)
    requires Tidy(f) && InSync(f) && f.defaults == map[] && section in f.sections && name in OptionsOf(f, section)
    ensures Tidy(Unset(f, section, name)) && InSync(Unset(f, section, name))
  {
    var f' := Unset(f, section, name);
    assert Holds(f, section, name) && Normalize(name) == name;
    forall s, o | Holds(f', s, o) ensures Normalize(o) == o && Kept(f', s, o) { UnsetKeeps(f, section, name, s, o); }
    forall k | k in f'.memory ensures Backed(f', k) { UnsetBacks(f, section, name, k); }
  }

  /** One edit keeps memory and parser together; a refused one changes neither. */
  lemma EditKeepsSync(e: Edit, f: File)
    requires Tidy(f) && InSync(f) && f.defaults == map[] && TidyEdit(e)
    ensures Tidy(Edited(e, f)) && InSync(Edited(e, f)) && Edited(e, f).defaults == map[]
    ensures OutcomeOf(e, f) != Done ==> Edited(e, f) == f
  {
    if OutcomeOf(e, f) == Done {
      var (s, n) := Target(e).value;
      match e
      case SetValue(_, value) => SetKeepsSync(f, s, n, value);
      case UnsetValue(_) => UnsetKeepsSync(f, s, n);
    }
  }

  function EditAll(edits: seq<Edit>, f: File): File {
    if edits == [] then f else EditAll(edits[1..], Edited(edits[0], f))
  }

  lemma {:induction false} EditsKeepSync(edits: seq<Edit>, f: File)
    requires Tidy(f) && InSync(f) && f.defaults == map[]
    requires forall k :: 0 <= k < |edits| ==> TidyEdit(edits[k])
    ensures Tidy(EditAll(edits, f)) && InSync(EditAll(edits, f))
  {
    if edits == [] {
    } else {
      EditKeepsSync(edits[0], f);
      EditsKeepSync(edits[1..], Edited(edits[0], f));
    }
  }

  // ---------------------------------------------------------------- when they drift apart

  lemma {:induction false} NewName(names: set<string>) returns (s: string)
    ensures forall n :: n in names ==> |n| < |s|
    ensures s != "" && forall i :: 0 <= i < |s| ==> s[i] == 'a'
  {
    if names == {} {
      s := "a";
    } else {
      var n :| n in names;
      s := NewName(names - {n});
      if |s| <= |n| { s := seq(|n| + 1, _ => 'a'); }
    }
  }

  lemma NormalNames(s: string, n: string)
    requires s != "" && forall i :: 0 <= i < |s| ==> s[i] == 'a'
    requires Normalize(n) == n
    ensures Normalize(n + "a") == n + "a"
    ensures Normalize(Key(s, n + "a")) == Key(s, n + "a")
    ensures Disassemble(Key(s, n + "a")) == Some((s, n + "a"))
  {
    assert LowerAll(n) == n;
    assert LowerAll(n + "a") == n + "a";
    assert LowerAll(Key(s, n + "a")) == Key(s, n + "a");
    assert '.' !in s;
    DisassembleKey(s, n + "a");
    var k := Key(s, n + "a");
    assert k[0] == 'a';
  }

  /** A default of the file counts for every new section, but never gets into memory. */
  lemma DefaultsBreakSync(f: File, n: string) returns (e: Edit)
    requires Tidy(f) && n in f.defaults && Normalize(n) == n
    ensures TidyEdit(e) && OutcomeOf(e, f) == Done
    ensures InSync(f) ==> !InSync(Edited(e, f))
  {
    var s := NewName(f.sections.Keys);
    NormalNames(s, n);
    e := SetValue(Key(s, n + "a"), "");
    var f' := Edited(e, f);
    assert f' == Set(f, s, n + "a", "");
    assert Holds(f', s, n);
    if InSync(f) && Key(s, n) in f.memory {
      var s', o :| Holds(f, s', o) && Key(s, n) == Key(s', Normalize(o));
      KeyInjective(s, n, s', Normalize(o));
      assert false;
    }
    KeyInjective(s, n, s, n + "a");
    assert InSync(f) ==> !Kept(f', s, n);
  }

  /**
   Memory and parser agree after every sequence of tidy edits exactly when the
   file has no DEFAULT section with options.
   */
  lemma SyncExact(f: File)
    requires Tidy(f) && InSync(f) && forall o :: o in f.defaults ==> Normalize(o) == o
    ensures (forall edits :: (forall k :: 0 <= k < |edits| ==> TidyEdit(edits[k])) ==> InSync(EditAll(edits, f)))
       <==> f.defaults == map[]
  {
    if f.defaults == map[] {
      forall edits | forall k :: 0 <= k < |edits| ==> TidyEdit(edits[k]) ensures InSync(EditAll(edits, f)) {
        EditsKeepSync(edits, f);
      }
    } else {
      var n :| n in f.defaults;
      var e := DefaultsBreakSync(f, n);
      assert [e][1..] == [] && EditAll([e], f) == Edited(e, f);
    }
  }

  lemma NewSectionBreaksSync(f: File, s: string, o: string, value: string)
    requires Tidy(f) && InSync(f) && '.' !in s && s !in f.sections && Normalize(o) != o
    ensures !InSync(Set(f, s, o, value))
  {
    var f' := Set(f, s, o, value);
    assert Holds(f', s, o);
    if Key(s, Normalize(o)) in f.memory {
      assert Backed(f, Key(s, Normalize(o)));
      var s', o' :| Holds(f, s', o') && Key(s, Normalize(o)) == Key(s', Normalize(o'));
      KeyInjective(s, Normalize(o), s', Normalize(o'));
      assert false;
    }
    KeyInjective(s, o, s, Normalize(o));
    assert !Kept(f', s, o);
  }

  lemma OldSectionBreaksSync(f: File, s: string, o: string, value: string)
    requires Tidy(f) && s in f.sections && Normalize(o) != o
    ensures !InSync(Set(f, s, o, value))
  {
    var f' := Set(f, s, o, value);
    if Backed(f', Key(s, o)) {
      var s', o' :| Holds(f', s', o') && Key(s, o) == Key(s', Normalize(o'));
      KeyInjective(s, o, s', Normalize(o'));
      assert o' != o && Holds(f, s, o');
      assert false;
    }
  }

  /** An option spelt with its own dashes is kept under a key it will not be loaded under. */
  lemma DashedOptionBreaksSync(f: File, s: string, o: string, value: string)
    requires Tidy(f) && InSync(f) && '.' !in s && Normalize(o) != o
    ensures !InSync(Set(f, s, o, value))
  {
    if s in f.sections { OldSectionBreaksSync(f, s, o, value); } else { NewSectionBreaksSync(f, s, o, value); }
  }

  /** An option of the nameless section becomes a default, for all sections, but in memory it is one key. */
  lemma NamelessSet(f: File, o: string, value: string)
    requires Tidy(f) && InSync(f) && f.defaults == map[] && "" !in f.sections && Normalize(o) == o
    ensures InSync(Set(f, "", o, value)) <==> forall s :: s in f.sections ==> o in f.sections[s]
  {
    var f' := Set(f, "", o, value);
    if forall s :: s in f.sections ==> o in f.sections[s] {
      forall s, n | Holds(f', s, n) ensures Kept(f', s, n) {
        if s != "" {
          assert Holds(f, s, n) && Kept(f, s, n);
          KeyInjective(s, n, "", o);
        }
      }
      forall k | k in f'.memory ensures Backed(f', k) { NamelessBacks(f, o, value, k); }
    } else {
      var s :| s in f.sections && o !in f.sections[s];
      assert Holds(f', s, o);
      if Key(s, o) in f.memory {
        var s', o' :| Holds(f, s', o') && Key(s, o) == Key(s', Normalize(o'));
        KeyInjective(s, o, s', Normalize(o'));
        assert false;
      }
      KeyInjective(s, o, "", o);
      assert !Kept(f', s, o);
    }
  }

  lemma NamelessBacks(f: File, o: string, value: string, k: string)
    requires Normalize(o) == o && (Backed(f, k) || k == Key("", o))
    ensures Backed(Set(f, "", o, value), k)
  {
    var f' := Set(f, "", o, value);
    if k == Key("", o) {
      assert Holds(f', "", o);
    } else {
      var s, n :| Holds(f, s, n) && k == Key(s, Normalize(n));
      assert Holds(f', s, n);
    }
  }

  /**
   Exactly two kinds of edit make memory and parser drift apart: one that sets
   an option with leading dashes of its own, as in `global.--timeout`, and one
   that sets an option of the nameless section, as in `.timeout`, unless every
   section has that option already.
   */
  lemma EditExact(e: Edit, f: File)
    requires Tidy(f) && InSync(f) && f.defaults == map[] && "" !in f.sections && OutcomeOf(e, f) == Done
    ensures InSync(Edited(e, f)) <==>
              || e.UnsetValue?
              || var (s, o) := Target(e).value;
                 Normalize(o) == o && (s == "" ==> forall t :: t in f.sections ==> o in f.sections[t])
  {
    var (s, o) := Target(e).value;
    if e.UnsetValue? {
      UnsetKeepsSync(f, s, o);
    } else if Normalize(o) != o {
      DashedOptionBreaksSync(f, s, o, e.value);
    } else if s == "" {
      NamelessSet(f, o, e.value);
    } else {
      SetKeepsSync(f, s, o, e.value);
    }
  }

  /** After an edit of the nameless section they are apart, or one more tidy edit parts them. */
  lemma NamelessEditParts(f: File, e: Edit) returns (next: Edit)
    requires Tidy(f) && InSync(f) && OutcomeOf(e, f) == Done && e.SetValue?
    requires Target(e).value.0 == "" && Normalize(Target(e).value.1) == Target(e).value.1
    requires forall n :: n in f.defaults ==> Normalize(n) == n
    ensures TidyEdit(next) && OutcomeOf(next, Edited(e, f)) == Done
    ensures InSync(Edited(e, f)) ==> !InSync(Edited(next, Edited(e, f)))
  {
    var f', o := Edited(e, f), Target(e).value.1;
    forall s, n | Holds(f', s, n) ensures Normalize(n) == n { assert n == o || n in f.defaults || Holds(f, s, n); }
    next := DefaultsBreakSync(f', o);
  }

  /** The key of such an edit is a dot and any name. */
  lemma NamelessEdit(f: File, name: string, value: string)
    requires Normalize(name) == name && LowerAll(name) == name
    ensures var e := SetValue(Key("", name), value); Target(e) == Some(("", name)) && OutcomeOf(e, f) == Done
  {
    LowerConcat(".", name);
    assert LowerAll(".") == "." && Key("", name) == "." + name;
    assert Normalize(Key("", name)) == Key("", name);
    DisassembleKey("", name);
  }

  /**
   A key in memory can be unset exactly if its section itself, not the
   defaults, has the option in its normalized spelling; for `index_url` it is
   an internal error.
   */
  lemma UnsetExact(f: File, s: string, o: string, key: string)
    requires f.loaded && '.' !in s && s != "" && Holds(f, s, o) && Kept(f, s, o)
    requires Normalize(key) == Key(s, Normalize(o))
    ensures Normalize(key) in f.memory
    ensures OutcomeOf(UnsetValue(key), f) == if Normalize(o) in f.sections[s] then Done else ConfigurationError
  {
    DisassembleKey(s, Normalize(o));
  }

  lemma LowerConcat(a: string, b: string)
    ensures LowerAll(a + b) == LowerAll(a) + LowerAll(b)
  {
  }

  /** Such an edit goes through, whatever the section and the rest of the name. */
  lemma DashedEdit(f: File, section: string, name: string, value: string)
    requires '.' !in section && section != "" && section[0] != '-' && LowerAll(section) == section && LowerAll(name) == name
    ensures var e := SetValue(Key(section, "--" + name), value);
            && Target(e) == Some((section, "--" + name)) && OutcomeOf(e, f) == Done && !TidyEdit(e)
  {
    var option := "--" + name;
    LowerConcat("--", name);
    LowerConcat(section, "." + option);
    LowerConcat(".", option);
    assert LowerAll("--") == "--" && LowerAll(".") == ".";
    assert section + ("." + option) == Key(section, option);
    assert Normalize(Key(section, option)) == Key(section, option);
    DisassembleKey(section, option);
    assert |Normalize(option)| == |name|;
  }

  // ---------------------------------------------------------------- the classes

  datatype Kind = User | Global | Site | Env | EnvVar

  datatype Text = Text(sections: map<string, Options>, defaults: Options)

  /** A RawConfigParser as far as it is used; the nameless section stands for the defaults. */
  class Parser {
    var sections: map<string, Options>
    var defaults: Options

    constructor (text: Text)
      ensures sections == text.sections && defaults == text.defaults
    {
      sections, defaults := text.sections, text.defaults;
    }

    /** The parser with nothing in memory. */
    function Alone(): File
      reads this
    {
      File(sections, defaults, map[], true)
    }

    /** Adds the option, and its section where there is none. */
    method Put(section: string, name: string, value: string)
      modifies this
      ensures var f := Set(old(Alone()), section, name, value); sections == f.sections && defaults == f.defaults
    {
      if section !in sections { sections := sections[section := map[]]; }
      if section == "" {
        defaults := defaults[name := value];
      } else {
        sections := sections[section := sections[section][name := value]];
      }
    }

    /** Whether the option was there; a section without items is removed. */
    method Drop(section: string, name: string) returns (existed: bool)
      modifies this
      ensures existed == (section in old(sections) && name in OptionsOf(old(Alone()), section))
      ensures var f := if existed then Unset(old(Alone()), section, name) else old(Alone());
              sections == f.sections && defaults == f.defaults
    {
      existed := section in sections && name in if section == "" then defaults else sections[section];
      if existed {
        if section == "" {
          defaults := defaults - {name};
        } else {
          sections := sections[section := sections[section] - {name}];
        }
        if defaults + sections[section] == map[] { sections := sections - {section}; }
      }
    }
  }

  class Configuration {
    const loadOnly: Option<Kind>
    const flaky: bool  // whether writing files may fail
    var parsers: map<Kind, seq<(string, Parser)>>
    var config: map<Kind, map<string, Options>>
    var modified: seq<(string, Parser)>

    /** Every kind has its dictionary and parsers, and only the edited parser is ever marked. */
    ghost predicate Valid()
      reads this
    {
      && (loadOnly.Some? ==> loadOnly.value in parsers && loadOnly.value in config)
      && (modified != [] ==> CanEdit() && forall m :: m in modified ==> m == Edits())
    }

    predicate CanEdit()
      reads this
    {
      loadOnly.Some? && loadOnly.value in parsers && loadOnly.value in config && parsers[loadOnly.value] != []
    }

    /** The file of the highest priority and its parser. */
    function Edits(): (string, Parser)
      requires CanEdit()
      reads this
    {
      var files := parsers[loadOnly.value];
      files[|files| - 1]
    }

    function Values(): map<string, Options>
      requires CanEdit()
      reads this
    {
      config[loadOnly.value]
    }

    function Current(): File
      requires CanEdit()
      reads this, Edits().1
    {
      var (fname, parser) := Edits();
      File(parser.sections, parser.defaults, if fname in Values() then Values()[fname] else map[], fname in Values())
    }

    constructor (loadOnly: Option<Kind>, flaky: bool)
      ensures Valid() && this.loadOnly == loadOnly && this.flaky == flaky && modified == []
      ensures parsers == map[User := [], Global := [], Site := [], Env := [], EnvVar := []]
      ensures config == map[User := map[], Global := map[], Site := map[], Env := map[], EnvVar := map[]]
    {
      this.loadOnly, this.flaky, modified := loadOnly, flaky, [];
      parsers := map[User := [], Global := [], Site := [], Env := [], EnvVar := []];
      config := map[User := map[], Global := map[], Site := map[], Env := map[], EnvVar := map[]];
      new;
      forall k: Kind ensures k in parsers && k in config {
        match k
        case User => case Global => case Site => case Env => case EnvVar =>
      }
    }

    /** What an edit may change: the edited file's values, and nothing of any other. */
    method Remember(fname: string, values: Options)
      requires Valid() && CanEdit() && fname == Edits().0
      modifies this`config
      ensures Valid() && CanEdit() && Edits() == old(Edits())
      ensures config == old(config)[loadOnly.value := old(Values())[fname := values]]
    {
      config := config[loadOnly.value := config[loadOnly.value][fname := values]];
    }

    method MarkAsModified()
      requires Valid() && CanEdit()
      modifies this`modified
      ensures Valid() && Edits() in modified && old(modified) <= modified
    {
      if Edits() !in modified { modified := modified + [Edits()]; }
    }

    method SetValue(key: string, value: string) returns (r: Outcome)
      requires Valid()
      modifies this`config, this`modified, if CanEdit() then {Edits().1} else {}
      ensures Valid() && CanEdit() == old(CanEdit()) && old(modified) <= modified
      ensures !CanEdit() ==> r == ConfigurationError
      ensures CanEdit() ==> Edits() == old(Edits()) && r == OutcomeOf(Edit.SetValue(key, value), old(Current()))
      ensures CanEdit() ==> Current() == Edited(Edit.SetValue(key, value), old(Current()))
      ensures config == if r.Done? then old(config)[loadOnly.value := old(Values())[Edits().0 := Current().memory]] else old(config)
      ensures r.Done? ==> Edits() in modified
      ensures r == if CanEdit() && '.' in Normalize(key) then Done else ConfigurationError
      ensures r.Done? ==>
                var (section, name) := Disassemble(Normalize(key)).value;
                var (fname, parser) := Edits();
                && fname in Values() && Normalize(key) in Values()[fname] && Values()[fname][Normalize(key)] == value
                && (forall k :: k != Normalize(key) ==>
                      (k in Values()[fname] <==> k in old(Current()).memory)
                      && (k in Values()[fname] ==> Values()[fname][k] == old(Current()).memory[k]))
                && section in parser.sections
                && (forall s :: s in parser.sections <==> s in old(Current()).sections || s == section)
                && (section == "" ==> parser.sections[""] == if "" in old(Current()).sections then old(Current()).sections[""] else map[])
                && (forall s, o :: Looked(parser.sections, parser.defaults, s, o) ==
                      if s == section && o == name then Some(value)
                      else Looked(old(Current()).sections, old(Current()).defaults, s, o))
    {
      if !CanEdit() { return ConfigurationError; }
      var normal := Normalize(key);
      var target := Disassemble(normal);
      if target.None? { return ConfigurationError; }
      var (section, name) := target.value;
      SetMeans(Current(), section, name, value);
      Assign(section, name, value);
      r := Done;
    }

    /** Sets the option in the parser and the key in memory. */
    method Assign(section: string, name: string, value: string)
      requires Valid() && CanEdit()
      modifies this`config, this`modified, Edits().1
      ensures Valid() && CanEdit() && Edits() == old(Edits()) && old(modified) <= modified && Edits() in modified
      ensures Current() == Set(old(Current()), section, name, value)
      ensures config == old(config)[loadOnly.value := old(Values())[Edits().0 := Current().memory]]
    {
      var (fname, parser) := Edits();
      var values := if fname in Values() then Values()[fname] else map[];
      parser.Put(section, name, value);
      Remember(fname, values[Key(section, name) := value]);
      MarkAsModified();
    }

    /** A key that is not in memory but happens to be the name of a loaded file of the kind. */
    predicate Stray(key: string)
      requires CanEdit()
      reads this
    {
      Edits().0 in Values() && key !in Values()[Edits().0] && key in Values()
    }

    /**
     The test for the key also accepts the name of a file.  That makes no
     difference as long as memory and parser agree; where they do not, an
     option may be removed and the values of that file forgotten instead.
     */
    method UnsetValue(key: string) returns (r: Outcome)
      requires Valid()
      modifies this`config, this`modified, if CanEdit() then {Edits().1} else {}
      ensures Valid() && CanEdit() == old(CanEdit()) && old(modified) <= modified
      ensures !CanEdit() ==> r == ConfigurationError
      ensures CanEdit() ==> Edits() == old(Edits())
      ensures CanEdit() && old(!Stray(Normalize(key)) || (Tidy(Current()) && InSync(Current()))) ==>
                && r == OutcomeOf(Edit.UnsetValue(key), old(Current()))
                && Current() == Edited(Edit.UnsetValue(key), old(Current()))
      ensures CanEdit() && old(Stray(Normalize(key))) ==>
                && (r.Done? <==> Target(Edit.UnsetValue(key)).Some?
                                 && var (s, n) := Target(Edit.UnsetValue(key)).value;
                                    s in old(Current()).sections && n in OptionsOf(old(Current()), s))
                && (r.Done? ==> var (s, n) := Target(Edit.UnsetValue(key)).value;
                                var f := Unset(old(Current()), s, n);
                                Current().sections == f.sections && Current().defaults == f.defaults)
      ensures !r.Done? ==> config == old(config) && modified == old(modified) && (CanEdit() ==> Current() == old(Current()))
      ensures r.Done? ==> Edits() in modified
      ensures r.Done? ==> config == old(config)[loadOnly.value :=
                if old(Stray(Normalize(key))) then old(Values()) - {Normalize(key)}
                else old(Values())[Edits().0 := old(Values())[Edits().0] - {Normalize(key)}]]
      ensures CanEdit() && old(Edits().0 !in Values()) ==> r == KeyError
      ensures CanEdit() && old(Edits().0 in Values()) ==>
                (r.Done? <==>
                  && old(Normalize(key) in Values()[Edits().0] || Normalize(key) in Values())
                  && '.' in Normalize(key)
                  && var (s, n) := Disassemble(Normalize(key)).value;
                     s in old(Current()).sections && Looked(old(Current()).sections, old(Current()).defaults, s, n).Some?)
      ensures CanEdit() && old(Edits().0 in Values()) && !r.Done? ==> r == ConfigurationError
      ensures r.Done? ==>
                var (section, name) := Disassemble(Normalize(key)).value;
                forall s, o :: Looked(Edits().1.sections, Edits().1.defaults, s, o) ==
                  if s == section && o == name then None
                  else Looked(old(Current()).sections, old(Current()).defaults, s, o)
      ensures r.Done? && old(Normalize(key) in Values()[Edits().0]) ==>
                && Edits().0 in Values()
                && (forall k :: k in Values()[Edits().0] <==> k in old(Values())[Edits().0] && k != Normalize(key))
                && (forall k :: k in Values()[Edits().0] ==> Values()[Edits().0][k] == old(Values())[Edits().0][k])
    {
      if !CanEdit() { return ConfigurationError; }
      var normal := Normalize(key);
      var (fname, parser) := Edits();
      if fname !in Values() { return KeyError; }
      if normal !in Values()[fname] && normal !in Values() { return ConfigurationError; }
      var target := Disassemble(normal);
      if target.None? { return ConfigurationError; }
      var (section, name) := target.value;
      if normal !in Values()[fname] && Tidy(Current()) && InSync(Current()) {
        UnknownIsAbsent(Current(), section, name);
      }
      if section in Current().sections && name in OptionsOf(Current(), section) { UnsetMeans(Current(), section, name); }
      var existed := Forget(section, name, normal);
      r := if existed then Done else ConfigurationError;
    }

    /** Removes the option from the parser and, if it was there, the key from memory. */
    method Forget(section: string, name: string, key: string) returns (existed: bool)
      requires Valid() && CanEdit() && Edits().0 in Values()
      requires key in Values()[Edits().0] || key in Values()
      modifies this`config, this`modified, Edits().1
      ensures Valid() && CanEdit() && Edits() == old(Edits()) && old(modified) <= modified
      ensures existed == (section in old(Current()).sections && name in OptionsOf(old(Current()), section))
      ensures var f := if existed then Unset(old(Current()), section, name) else old(Current());
              Edits().1.sections == f.sections && Edits().1.defaults == f.defaults
      ensures !existed ==> config == old(config) && modified == old(modified)
      ensures existed ==> Edits() in modified
      ensures existed ==> config == old(config)[loadOnly.value :=
                if old(key !in Values()[Edits().0]) then old(Values()) - {key}
                else old(Values())[Edits().0 := old(Values())[Edits().0] - {key}]]
    {
      var (fname, parser) := Edits();
      existed := parser.Drop(section, name);
      if existed {
        MarkAsModified();
        if key in Values()[fname] {
          Remember(fname, Values()[fname] - {key});
        } else {
          config := config[loadOnly.value := Values() - {key}];
        }
      }
    }

    /**
     Writes every modified parser.  An error stops it, with what was written
     before left in place.
     */
    method Save(disk: map<string, Text>) returns (r: Outcome, after: map<string, Text>)
      requires Valid()
      ensures loadOnly.None? ==> r == ConfigurationError && after == disk
      ensures loadOnly.Some? && !flaky ==> r.Done?
      ensures r.Done? ==> after == if modified == [] then disk else disk[Edits().0 := Text(Current().sections, Current().defaults)]
      ensures forall fname :: fname in after && !(CanEdit() && fname == Edits().0) ==> fname in disk && after[fname] == disk[fname]
    {
      after := disk;
      if loadOnly.None? { return ConfigurationError, after; }
      for k := 0 to |modified|
        invariant after == if k == 0 then disk else disk[Edits().0 := Text(Current().sections, Current().defaults)]
      {
        assert modified[k] in modified;
        var (fname, parser) := modified[k];
        var ok: bool := *;
        if !ok && flaky { return ConfigurationError, after; }
        after := after[fname := Text(parser.sections, parser.defaults)];
      }
      r := Done;
    }
  }

  lemma PresentIsKept(f: File, section: string, name: string)
    requires Tidy(f) && InSync(f) && section in f.sections && name in OptionsOf(f, section)
    ensures Key(section, name) in f.memory
  {
    assert Holds(f, section, name) && Kept(f, section, name);
  }

  lemma UnknownIsAbsent(f: File, section: string, name: string)
    requires Tidy(f) && InSync(f) && Key(section, name) !in f.memory
    ensures !(section in f.sections && name in OptionsOf(f, section))
  {
    if section in f.sections && name in OptionsOf(f, section) {
      PresentIsKept(f, section, name);
    }
  }

  /** Loading a file: every item of every section, the defaults among them; without sections nothing is kept of it. */
  method LoadFile(text: Text) returns (values: Options, loaded: bool)
    requires Tidy(File(text.sections, text.defaults, map[], true))
    ensures InSync(File(text.sections, text.defaults, values, loaded))
    ensures loaded <==> text.sections != map[]
    ensures forall s, o :: s in text.sections && o in text.sections[s] ==>
              s + "." + Normalize(o) in values && values[s + "." + Normalize(o)] == text.sections[s][o]
    ensures forall s, o :: s in text.sections && o in text.defaults && o !in text.sections[s] ==>
              s + "." + Normalize(o) in values && values[s + "." + Normalize(o)] == text.defaults[o]
    ensures forall k :: k in values ==>
              exists s, o :: s in text.sections && (o in text.sections[s] || o in text.defaults) && k == s + "." + Normalize(o)
  {
    values, loaded := map[], false;
    var f := File(text.sections, text.defaults, map[], true);
    var sections := text.sections.Keys;
    while sections != {}
      invariant sections <= f.sections.Keys && (loaded <==> sections != f.sections.Keys)
      invariant forall s, o :: Holds(f, s, o) && s !in sections ==> Kept(f.(memory := values), s, o)
      invariant forall k :: k in values ==> Backed(f, k)
      decreases sections
    {
      var section :| section in sections;
      var items := f.defaults + f.sections[section];
      var names := items.Keys;
      loaded := true;
      while names != {}
        invariant names <= items.Keys
        invariant forall s, o :: Holds(f, s, o) && (s !in sections || (s == section && o !in names)) ==> Kept(f.(memory := values), s, o)
        invariant forall k :: k in values ==> Backed(f, k)
        decreases names
      {
        var name :| name in names;
        ghost var before := values;
        values := values[Key(section, Normalize(name)) := items[name]];
        LoadStep(f, before, section, name);
        names := names - {name};
      }
      sections := sections - {section};
    }
    forall k | k in values ensures Backed(f.(memory := values), k) {
      var s, o :| Holds(f, s, o) && k == Key(s, Normalize(o));
      assert Holds(f.(memory := values), s, o);
    }
    forall s, o | Holds(f.(memory := values), s, o) ensures Kept(f.(memory := values), s, o) {
      assert Holds(f, s, o);
    }
    SyncMeans(text, values, loaded);
  }

  /** Every option under its key with its value, that of the section before that of the defaults, and no other key. */
  lemma SyncMeans(text: Text, values: Options, loaded: bool)
    requires InSync(File(text.sections, text.defaults, values, loaded))
    ensures forall s, o :: s in text.sections && o in text.sections[s] ==>
              s + "." + Normalize(o) in values && values[s + "." + Normalize(o)] == text.sections[s][o]
    ensures forall s, o :: s in text.sections && o in text.defaults && o !in text.sections[s] ==>
              s + "." + Normalize(o) in values && values[s + "." + Normalize(o)] == text.defaults[o]
    ensures forall k :: k in values ==>
              exists s, o :: s in text.sections && (o in text.sections[s] || o in text.defaults) && k == s + "." + Normalize(o)
  {
    var f := File(text.sections, text.defaults, values, loaded);
    forall s, o | s in text.sections && (o in text.sections[s] || o in text.defaults)
      ensures s + "." + Normalize(o) in values
      ensures values[s + "." + Normalize(o)] == if o in text.sections[s] then text.sections[s][o] else text.defaults[o]
    {
      assert Holds(f, s, o) && Kept(f, s, o);
    }
    forall k | k in values
      ensures exists s, o :: s in text.sections && (o in text.sections[s] || o in text.defaults) && k == s + "." + Normalize(o)
    {
      assert Backed(f, k);
      var s, o :| Holds(f, s, o) && k == Key(s, Normalize(o));
    }
  }

  lemma LoadStep(f: File, before: Options, section: string, name: string)
    requires Tidy(f) && Holds(f, section, name)
    ensures var after := before[Key(section, Normalize(name)) := Items(f, section)[name]];
            && (forall s, o :: Holds(f, s, o) && Kept(f.(memory := before), s, o) ==> Kept(f.(memory := after), s, o))
            && Kept(f.(memory := after), section, name)
            && Backed(f, Key(section, Normalize(name)))
  {
    var after := before[Key(section, Normalize(name)) := Items(f, section)[name]];
    forall s, o | Holds(f, s, o) && Kept(f.(memory := before), s, o) ensures Kept(f.(memory := after), s, o) {
      KeyInjective(s, o, section, name);
    }
  }
}
