/**
 The disk cache of what other Pythons answered when they were probed
 (interpreters/facts.py), as a system of steps: any number of kpip processes
 look up, probe and store while files, symbolic links and everything else
 change around them.  Time is the number of clock ticks; every write of a file
 or directory stamps it with the time of the write.
 */
module FactsCache {
  import opened Basics

  type Path = string
  type Content = nat
  type View = map<Path, Content>

  datatype Stamp = Stamp(mtime: nat, size: nat)
  datatype File = File(content: Content, stamp: Stamp)

  datatype Facts = Facts(executable: Path, path: seq<Path>, userSite: Path, supported: bool, detail: nat)

  datatype Key = Key(path: Path, target: Path, exec: Stamp, cfg: Option<Stamp>, env: seq<Option<string>>, digest: nat)

  datatype Entry = Entry(key: Key, directories: seq<(Path, Option<Stamp>)>, facts: Facts)

  /** What the answer of a Python may depend on besides the directories it searches. */
  datatype Inputs = Inputs(path: Path, target: Path, exec: Content, cfg: Option<Content>,
                           env: seq<Option<string>>, digest: nat)

  /** ... and what only a shim looks at. */
  datatype Rest = Rest(links: map<Path, Path>, elsewhere: nat)

  /** Where `pyvenv.cfg` of an interpreter is, the file name of a key, and the probe itself. */
  datatype System = System(cfgOf: Path -> Path, nameOf: Key -> string, probe: (Inputs, View, Rest) -> Facts)

  /** A process after a lookup without a result, while the probe runs, with its answer, and with a checked one. */
  datatype Phase =
    | Missed(key: Key)
    | Probing(key: Key, started: nat, seen: map<Path, Option<Content>>)
    | Answered(key: Key, started: nat, seen: map<Path, Option<Content>>, facts: Facts, rest: Rest)
    | Checked(key: Key, started: nat, seen: map<Path, Option<Content>>, facts: Facts, rest: Rest)

  datatype World = World(clock: nat, files: map<Path, File>, links: map<Path, Path>, elsewhere: nat,
                         cache: map<string, Entry>, procs: map<nat, Phase>)

  datatype Lookup = Hit(facts: Facts) | Miss(key: Key) | NoStore

  // ---------------------------------------------------------------- reading the world

  function Resolve(links: map<Path, Path>, p: Path): Path {
    if p in links then links[p] else p
  }

  function StampOf(w: World, p: Path): Option<Stamp> {
    if p in w.files then Some(w.files[p].stamp) else None
  }

  function ContentOf(w: World, p: Path): Option<Content> {
    if p in w.files then Some(w.files[p].content) else None
  }

  function Directories(f: Facts): seq<Path> { f.path + [f.userSite] }

  /** The directories whose stamps are kept: an empty name is no directory. */
  predicate Listed(f: Facts, d: Path) { d != "" && d in Directories(f) }

  function KeyOf(sys: System, w: World, path: Path, env: seq<Option<string>>, digest: nat): Key
    requires Resolve(w.links, path) in w.files
  {
    var target := Resolve(w.links, path);
    Key(path, target, w.files[target].stamp, StampOf(w, sys.cfgOf(path)), env, digest)
  }

  /** Everything a probe run at this moment is given. */
  function InputsNow(sys: System, w: World, path: Path, env: seq<Option<string>>, digest: nat): Inputs
    requires Resolve(w.links, path) in w.files
  {
    var target := Resolve(w.links, path);
    Inputs(path, target, w.files[target].content, ContentOf(w, sys.cfgOf(path)), env, digest)
  }

  function ViewNow(w: World): View { map p | p in w.files :: w.files[p].content }

  /** What the interpreter at `path` would answer now. */
  function Fresh(sys: System, w: World, path: Path, env: seq<Option<string>>, digest: nat): Facts
    requires Resolve(w.links, path) in w.files
  {
    (sys.probe)(InputsNow(sys, w, path, env, digest), ViewNow(w), Rest(w.links, w.elsewhere))
  }

  predicate StampsHold(w: World, directories: seq<(Path, Option<Stamp>)>) {
    forall k :: 0 <= k < |directories| ==> StampOf(w, directories[k].0) == directories[k].1
  }

  function CachedFacts(sys: System, w: World, path: Path, env: seq<Option<string>>, digest: nat): Lookup {
    if Resolve(w.links, path) !in w.files then NoStore
    else
      var key := KeyOf(sys, w, path, env, digest);
      var name := (sys.nameOf)(key);
      if name in w.cache && w.cache[name].key == key && StampsHold(w, w.cache[name].directories)
      then Hit(w.cache[name].facts)
      else Miss(key)
  }

  // ---------------------------------------------------------------- storing an answer

  predicate ChangedSince(w: World, d: Path, started: nat) {
    d != "" && d in w.files && w.files[d].stamp.mtime >= started
  }

  function Stamps(w: World, directories: seq<Path>): (r: seq<(Path, Option<Stamp>)>)
    ensures forall d :: d != "" && d in directories ==> (d, StampOf(w, d)) in r
    ensures forall e :: e in r ==> e.0 != "" && e.0 in directories && e.1 == StampOf(w, e.0)
  {
    if directories == [] then []
    else
      var rest := Stamps(w, directories[1..]);
      if directories[0] == "" then rest else [(directories[0], StampOf(w, directories[0]))] + rest
  }

  /** The answer is kept unless a shim gave it or a directory it lists changed meanwhile. */
  predicate Keepable(w: World, key: Key, facts: Facts, started: nat) {
    && Resolve(w.links, facts.executable) == Resolve(w.links, key.path)
    && forall d :: d in Directories(facts) ==> !ChangedSince(w, d, started)
  }

  /** The answer under the stamps of this moment. */
  function Kept(sys: System, w: World, key: Key, facts: Facts): World {
    w.(cache := w.cache[(sys.nameOf)(key) := Entry(key, Stamps(w, Directories(facts)), facts)])
  }

  /** Check and entry in one moment. */
  function Stored(sys: System, w: World, key: Key, facts: Facts, started: nat): World {
    if Keepable(w, key, facts, started) then Kept(sys, w, key, facts) else w
  }

  // ---------------------------------------------------------------- steps

  datatype Step =
    | LookUp(pid: nat, path: Path, env: seq<Option<string>>, digest: nat)
    | StartProbe(pid: nat)
    | Observe(pid: nat, p: Path)
    | Answer(pid: nat)
    | Check(pid: nat)
    | Keep(pid: nat)
    | GiveUp(pid: nat)
    | Prune(names: set<string>)
    | Write(p: Path, content: Content, size: nat)
    | Remove(p: Path)
    | Relink(links: map<Path, Path>)
    | ChangeElsewhere(elsewhere: nat)
    | Tick

  function SeenView(seen: map<Path, Option<Content>>): View {
    map p | p in seen && seen[p].Some? :: seen[p].value
  }

  predicate InputsSeen(sys: System, key: Key, target: Path, seen: map<Path, Option<Content>>) {
    target in seen && seen[target].Some? && sys.cfgOf(key.path) in seen
  }

  /** The inputs of a run of `target` in which it and `pyvenv.cfg` were read as `seen`. */
  function SeenInputs(sys: System, key: Key, target: Path, seen: map<Path, Option<Content>>): Inputs
    requires InputsSeen(sys, key, target, seen)
  {
    Inputs(key.path, target, seen[target].value, seen[sys.cfgOf(key.path)], key.env, key.digest)
  }

  /** What the file that `path` leads to by now answers, from what it has read. */
  function AnswerOf(sys: System, w: World, key: Key, seen: map<Path, Option<Content>>): Facts
    requires InputsSeen(sys, key, Resolve(w.links, key.path), seen)
  {
    (sys.probe)(SeenInputs(sys, key, Resolve(w.links, key.path), seen), SeenView(seen), Rest(w.links, w.elsewhere))
  }

  predicate Enabled(sys: System, w: World, s: Step) {
    match s
    case LookUp(pid, _, _, _) => pid !in w.procs
    case StartProbe(pid) => pid in w.procs && w.procs[pid].Missed?
    case Observe(pid, _) => pid in w.procs && w.procs[pid].Probing?
    case Answer(pid) =>
      && pid in w.procs && w.procs[pid].Probing?
      && var Probing(key, _, seen) := w.procs[pid];
      && InputsSeen(sys, key, Resolve(w.links, key.path), seen)
      && forall d :: d in Directories(AnswerOf(sys, w, key, seen)) && d != "" ==> d in seen
    case Check(pid) => pid in w.procs && w.procs[pid].Answered?
    case Keep(pid) => pid in w.procs && w.procs[pid].Checked?
    case GiveUp(pid) => pid in w.procs
    case _ => true
  }

  function Apply(sys: System, w: World, s: Step): World
    requires Enabled(sys, w, s)
  {
    match s
    case LookUp(pid, path, env, digest) =>
      var found := CachedFacts(sys, w, path, env, digest);
      if found.Miss? then w.(procs := w.procs[pid := Missed(found.key)]) else w
    case StartProbe(pid) => w.(procs := w.procs[pid := Probing(w.procs[pid].key, w.clock, map[])])
    case Observe(pid, p) =>
      var Probing(key, started, seen) := w.procs[pid];
      w.(procs := w.procs[pid := Probing(key, started, seen[p := ContentOf(w, p)])])
    case Answer(pid) =>
      var Probing(key, started, seen) := w.procs[pid];
      w.(procs := w.procs[pid :=
        Answered(key, started, seen, AnswerOf(sys, w, key, seen), Rest(w.links, w.elsewhere))])
    case Check(pid) =>
      var Answered(key, started, seen, facts, rest) := w.procs[pid];
      if Keepable(w, key, facts, started)
      then w.(procs := w.procs[pid := Checked(key, started, seen, facts, rest)])
      else w.(procs := w.procs - {pid})
    case Keep(pid) => Kept(sys, w, w.procs[pid].key, w.procs[pid].facts).(procs := w.procs - {pid})
    case GiveUp(pid) => w.(procs := w.procs - {pid})
    case Prune(names) => w.(cache := w.cache - names)
    case Write(p, content, size) =>
      w.(files := w.files[p := File(content, Stamp(w.clock, size))], clock := w.clock + 1)
    case Remove(p) => w.(files := w.files - {p})
    case Relink(links) => w.(links := links)
    case ChangeElsewhere(elsewhere) => w.(elsewhere := elsewhere)
    case Tick => w.(clock := w.clock + 1)
  }

  // ---------------------------------------------------------------- answers that may be kept

  predicate HasAnswer(proc: Phase) { proc.Answered? || proc.Checked? }

  /**
   Whether the key and all stamps of an entry stored now can ever be current
   together: stamps of files do not come back, but `pyvenv.cfg` may go away.
   */
  predicate CanComeBack(sys: System, w: World, key: Key, facts: Facts) {
    var cfg := sys.cfgOf(key.path);
    && StampOf(w, key.target) == Some(key.exec)
    && (StampOf(w, cfg) == key.cfg || (key.cfg.None? && cfg != key.target && !Listed(facts, cfg)))
  }

  /**
   What the stamps do not tell.  The answer came from the inputs of the key:
   without `pyvenv.cfg` where the key has none, from the file the key names,
   and that file for itself.  Every directory is what it was found to be.
   */
  predicate FitsKey(sys: System, w: World, proc: Phase)
    requires HasAnswer(proc)
  {
    var key, cfg := proc.key, sys.cfgOf(proc.key.path);
    && (key.cfg.None? && cfg in proc.seen ==> proc.seen[cfg].None?)
    && Resolve(proc.rest.links, key.path) == key.target
    && Resolve(proc.rest.links, proc.facts.executable) == key.target
    && forall d :: d in Directories(proc.facts) && d != "" && d in proc.seen ==> proc.seen[d] == ContentOf(w, d)
  }

  /** An answer may be kept if the entry fits its key or can never be found. */
  predicate Trusted(sys: System, w: World, proc: Phase)
    requires HasAnswer(proc)
  {
    CanComeBack(sys, w, proc.key, proc.facts) ==> FitsKey(sys, w, proc)
  }

  /** A step that keeps no answer that is not to be trusted. */
  predicate Careful(sys: System, w: World, s: Step)
    requires Enabled(sys, w, s)
  {
    s.Keep? ==> Trusted(sys, w, w.procs[s.pid])
  }

  // ---------------------------------------------------------------- soundness

  ghost predicate SameOn(f: Facts, v: View, v': View) {
    forall d :: Listed(f, d) ==> (d in v <==> d in v') && (d in v ==> v[d] == v'[d])
  }

  /** An answer no change can affect but one of its inputs or of the directories it lists. */
  ghost predicate LocalAnswer(sys: System, i: Inputs, v: View, f: Facts) {
    forall v': View, rest: Rest :: SameOn(f, v, v') ==> (sys.probe)(i, v', rest) == f
  }

  /** Only a shim, which runs another file than itself, gives other answers. */
  ghost predicate ProbesAreLocal(sys: System) {
    forall i: Inputs, v: View, rest: Rest ::
      var f := (sys.probe)(i, v, rest);
      Resolve(rest.links, f.executable) == i.target ==> LocalAnswer(sys, i, v, f)
  }

  /** While `p` has the stamp `st`, it holds `c`: a stamp once left never comes back. */
  ghost predicate Settled(w: World, p: Path, st: Option<Stamp>, c: Option<Content>) {
    && (st.None? ==> c.None?)
    && (st.Some? ==> st.value.mtime < w.clock)
    && (StampOf(w, p) == st ==> ContentOf(w, p) == c)
  }

  ghost predicate KeySettled(sys: System, w: World, key: Key, i: Inputs) {
    && i.path == key.path && i.target == key.target && i.env == key.env && i.digest == key.digest
    && Settled(w, key.target, Some(key.exec), Some(i.exec))
    && Settled(w, sys.cfgOf(key.path), key.cfg, i.cfg)
  }

  function At(v: View, d: Path): Option<Content> { if d in v then Some(v[d]) else None }

  ghost predicate StampsSettled(w: World, directories: seq<(Path, Option<Stamp>)>, v: View) {
    forall k :: 0 <= k < |directories| ==> Settled(w, directories[k].0, directories[k].1, At(v, directories[k].0))
  }

  ghost predicate ListsAll(directories: seq<(Path, Option<Stamp>)>, f: Facts) {
    forall d :: Listed(f, d) ==> exists k :: 0 <= k < |directories| && directories[k].0 == d
  }

  ghost predicate ExplainedBy(sys: System, w: World, e: Entry, i: Inputs, v: View) {
    && KeySettled(sys, w, e.key, i)
    && StampsSettled(w, e.directories, v)
    && ListsAll(e.directories, e.facts)
    && LocalAnswer(sys, i, v, e.facts)
  }

  /** An entry that will never be found again. */
  ghost predicate Gone(sys: System, w: World, e: Entry) {
    var cfg := sys.cfgOf(e.key.path);
    || StampOf(w, e.key.target) != Some(e.key.exec)
    || (e.key.cfg.Some? && StampOf(w, cfg) != e.key.cfg)
    || (e.key.cfg.None? && (cfg == e.key.target ||
          exists k :: 0 <= k < |e.directories| && e.directories[k].0 == cfg && e.directories[k].1.Some?))
  }

  /** An entry tells what a probe answered while its stamps were current, or is gone. */
  ghost predicate Explained(sys: System, w: World, e: Entry) {
    && KeyStands(w, e.key)
    && (Gone(sys, w, e) || exists i: Inputs, v: View :: ExplainedBy(sys, w, e, i, v))
  }

  /** What a running probe has seen still stands, or carries a stamp from after its start. */
  ghost predicate SeenStands(w: World, started: nat, seen: map<Path, Option<Content>>) {
    && started <= w.clock
    && forall p :: p in seen && p in w.files && w.files[p].stamp.mtime < started ==> seen[p] == ContentOf(w, p)
  }

  /** The stamps of a key were taken before now. */
  ghost predicate KeyStands(w: World, key: Key) {
    key.exec.mtime < w.clock && (key.cfg.Some? ==> key.cfg.value.mtime < w.clock)
  }

  /** The system answers the process as it was answered. */
  ghost predicate SameAnswer(sys: System, proc: Phase)
    requires HasAnswer(proc)
  {
    var target := Resolve(proc.rest.links, proc.key.path);
    && InputsSeen(sys, proc.key, target, proc.seen)
    && (sys.probe)(SeenInputs(sys, proc.key, target, proc.seen), SeenView(proc.seen), proc.rest) == proc.facts
  }

  ghost predicate ProcSound(sys: System, w: World, proc: Phase) {
    && KeyStands(w, proc.key)
    && (!proc.Missed? ==>
          && SeenStands(w, proc.started, proc.seen)
          && var cfg := sys.cfgOf(proc.key.path);
          && (proc.key.target in proc.seen ==> Settled(w, proc.key.target, Some(proc.key.exec), proc.seen[proc.key.target]))
          && (proc.key.cfg.Some? && cfg in proc.seen ==> Settled(w, cfg, proc.key.cfg, proc.seen[cfg])))
    && (HasAnswer(proc) ==> SameAnswer(sys, proc) && forall d :: Listed(proc.facts, d) ==> d in proc.seen)
  }

  /** What holds of files and processes in every run. */
  ghost predicate Steady(sys: System, w: World) {
    && (forall p :: p in w.files ==> w.files[p].stamp.mtime < w.clock)
    && (forall pid :: pid in w.procs ==> ProcSound(sys, w, w.procs[pid]))
  }

  ghost predicate Sound(sys: System, w: World) {
    Steady(sys, w) && forall name :: name in w.cache ==> Explained(sys, w, w.cache[name])
  }

  /** Files change only by taking a stamp of their own time, or by going away. */
  ghost predicate Evolves(w: World, w': World) {
    && w.clock <= w'.clock
    && forall p ::
         || (StampOf(w', p) == StampOf(w, p) && ContentOf(w', p) == ContentOf(w, p))
         || StampOf(w', p).None?
         || StampOf(w', p).value.mtime >= w.clock
  }

  lemma ExplainedStays(sys: System, w: World, w': World, e: Entry)
    requires Explained(sys, w, e) && Evolves(w, w')
    ensures Explained(sys, w', e)
  {
    if !Gone(sys, w, e) {
      var i: Inputs, v: View :| ExplainedBy(sys, w, e, i, v);
      assert ExplainedBy(sys, w', e, i, v);
    }
  }

  /** An entry whose key and stamps are current is what a probe would answer now. */
  lemma ExplainedHitIsFresh(sys: System, w: World, e: Entry, path: Path, env: seq<Option<string>>, digest: nat)
    requires Explained(sys, w, e) && Resolve(w.links, path) in w.files
    requires e.key == KeyOf(sys, w, path, env, digest) && StampsHold(w, e.directories)
    ensures e.facts == Fresh(sys, w, path, env, digest)
  {
    assert !Gone(sys, w, e);
    var i: Inputs, v: View :| ExplainedBy(sys, w, e, i, v);
    assert i == InputsNow(sys, w, path, env, digest);
    assert SameOn(e.facts, v, ViewNow(w)) by {
      forall d | Listed(e.facts, d) ensures At(v, d) == ContentOf(w, d) {
        var k :| 0 <= k < |e.directories| && e.directories[k].0 == d;
        assert Settled(w, e.directories[k].0, e.directories[k].1, At(v, e.directories[k].0));
      }
    }
  }

  // ---------------------------------------------------------------- every step keeps the cache sound

  lemma StepEvolves(sys: System, w: World, s: Step)
    requires Steady(sys, w) && Enabled(sys, w, s)
    ensures Evolves(w, Apply(sys, w, s))
    ensures forall p :: p in Apply(sys, w, s).files ==>
              Apply(sys, w, s).files[p].stamp.mtime < Apply(sys, w, s).clock
  {
  }

  lemma SettledStays(w: World, w': World, p: Path, st: Option<Stamp>, c: Option<Content>)
    requires Evolves(w, w') && Settled(w, p, st, c)
    ensures Settled(w', p, st, c)
  {
  }

  lemma SeenStays(w: World, w': World, started: nat, seen: map<Path, Option<Content>>)
    requires SeenStands(w, started, seen) && Evolves(w, w')
    ensures SeenStands(w', started, seen)
  {
    forall p | p in seen && p in w'.files && w'.files[p].stamp.mtime < started
      ensures seen[p] == ContentOf(w', p)
    {
      assert StampOf(w', p) == StampOf(w, p);
    }
  }

  /** Whatever changes around a process leaves what it knows true. */
  lemma ProcStays(sys: System, w: World, w': World, proc: Phase)
    requires ProcSound(sys, w, proc) && Evolves(w, w')
    ensures ProcSound(sys, w', proc)
  {
    if !proc.Missed? {
      var cfg := sys.cfgOf(proc.key.path);
      if proc.key.cfg.Some? && cfg in proc.seen { SettledStays(w, w', cfg, proc.key.cfg, proc.seen[cfg]); }
      if proc.key.target in proc.seen {
        SettledStays(w, w', proc.key.target, Some(proc.key.exec), proc.seen[proc.key.target]);
      }
      SeenStays(w, w', proc.started, proc.seen);
    }
  }

  lemma LookUpKeepsSteady(sys: System, w: World, s: Step)
    requires Steady(sys, w) && Enabled(sys, w, s) && s.LookUp?
    requires CachedFacts(sys, w, s.path, s.env, s.digest).Miss?
    ensures ProcSound(sys, Apply(sys, w, s), Missed(CachedFacts(sys, w, s.path, s.env, s.digest).key))
  {
  }

  lemma ObserveKeepsSteady(sys: System, w: World, s: Step)
    requires Steady(sys, w) && Enabled(sys, w, s) && s.Observe?
    ensures ProcSound(sys, Apply(sys, w, s), Apply(sys, w, s).procs[s.pid])
  {
    assert ProcSound(sys, w, w.procs[s.pid]);
  }

  lemma AnswerKeepsSteady(sys: System, w: World, s: Step)
    requires Steady(sys, w) && Enabled(sys, w, s) && s.Answer?
    ensures ProcSound(sys, Apply(sys, w, s), Apply(sys, w, s).procs[s.pid])
  {
    assert ProcSound(sys, w, w.procs[s.pid]);
  }

  lemma OwnStepKeepsSteady(sys: System, w: World, s: Step, pid: nat)
    requires Steady(sys, w) && Enabled(sys, w, s) && pid in Apply(sys, w, s).procs
    requires !(pid in w.procs && Apply(sys, w, s).procs[pid] == w.procs[pid])
    ensures ProcSound(sys, Apply(sys, w, s), Apply(sys, w, s).procs[pid])
  {
    match s
    case LookUp(_, _, _, _) => LookUpKeepsSteady(sys, w, s);
    case Observe(_, _) => ObserveKeepsSteady(sys, w, s);
    case Answer(_) => AnswerKeepsSteady(sys, w, s);
    case StartProbe(_) => assert ProcSound(sys, w, w.procs[pid]);
    case Check(_) => assert ProcSound(sys, w, w.procs[pid]);
    case _ =>
  }

  lemma StepKeepsSteady(sys: System, w: World, s: Step)
    requires Steady(sys, w) && Enabled(sys, w, s)
    ensures Steady(sys, Apply(sys, w, s))
  {
    StepEvolves(sys, w, s);
    var w' := Apply(sys, w, s);
    forall pid | pid in w'.procs ensures ProcSound(sys, w', w'.procs[pid]) {
      if pid in w.procs && w'.procs[pid] == w.procs[pid] {
        ProcStays(sys, w, w', w.procs[pid]);
      } else {
        OwnStepKeepsSteady(sys, w, s, pid);
      }
    }
  }

  /** What is stored tells what the probe answered at its stamps. */
  lemma StoredIsExplained(sys: System, w: World, proc: Phase)
    requires ProbesAreLocal(sys) && HasAnswer(proc) && ProcSound(sys, w, proc)
    requires forall p :: p in w.files ==> w.files[p].stamp.mtime < w.clock
    requires FitsKey(sys, w, proc)
    ensures Explained(sys, w, Entry(proc.key, Stamps(w, Directories(proc.facts)), proc.facts))
  {
    var e := Entry(proc.key, Stamps(w, Directories(proc.facts)), proc.facts);
    var i, v := SeenInputs(sys, proc.key, proc.key.target, proc.seen), SeenView(proc.seen);
    assert LocalAnswer(sys, i, v, proc.facts);
    forall k | 0 <= k < |e.directories|
      ensures Settled(w, e.directories[k].0, e.directories[k].1, At(v, e.directories[k].0))
    {
      assert e.directories[k] in e.directories;
      var d := e.directories[k].0;
      assert Listed(proc.facts, d) && d in proc.seen;
    }
    forall d | Listed(e.facts, d) ensures exists k :: 0 <= k < |e.directories| && e.directories[k].0 == d {
      assert (d, StampOf(w, d)) in e.directories;
    }
    assert ExplainedBy(sys, w, e, i, v);
  }

  /** What cannot come back is never found. */
  lemma StoredIsGone(sys: System, w: World, key: Key, facts: Facts)
    requires !CanComeBack(sys, w, key, facts)
    ensures Gone(sys, w, Entry(key, Stamps(w, Directories(facts)), facts))
  {
    var e, cfg := Entry(key, Stamps(w, Directories(facts)), facts), sys.cfgOf(key.path);
    if !(StampOf(w, key.target) != Some(key.exec)) && key.cfg.None? && cfg != key.target {
      assert Listed(facts, cfg) && (cfg, StampOf(w, cfg)) in e.directories;
      var k :| 0 <= k < |e.directories| && e.directories[k] == (cfg, StampOf(w, cfg));
      assert e.directories[k].0 == cfg && e.directories[k].1.Some?;
    }
  }

  lemma KeepKeepsEntries(sys: System, w: World, proc: Phase, name: string)
    requires ProbesAreLocal(sys) && Sound(sys, w) && HasAnswer(proc) && ProcSound(sys, w, proc)
    requires Trusted(sys, w, proc) && name in Kept(sys, w, proc.key, proc.facts).cache
    ensures Explained(sys, w, Kept(sys, w, proc.key, proc.facts).cache[name])
  {
    if CanComeBack(sys, w, proc.key, proc.facts) {
      StoredIsExplained(sys, w, proc);
    } else {
      StoredIsGone(sys, w, proc.key, proc.facts);
    }
  }

  /** A directory whose stamp is from before the probe, or that is still gone, is what it was found to be. */
  lemma UnchangedIsAsFound(sys: System, w: World, proc: Phase)
    requires HasAnswer(proc) && ProcSound(sys, w, proc)
    requires forall d :: Listed(proc.facts, d) ==>
               if d in w.files then w.files[d].stamp.mtime < proc.started else proc.seen[d].None?
    ensures forall d :: Listed(proc.facts, d) ==> d in proc.seen && proc.seen[d] == ContentOf(w, d)
  {
  }

  /** Why the test of the stamps is made: where it succeeds and no directory that was found is gone, all are so. */
  lemma KeepableIsAsFound(sys: System, w: World, proc: Phase)
    requires HasAnswer(proc) && ProcSound(sys, w, proc)
    requires Keepable(w, proc.key, proc.facts, proc.started)
    requires forall d :: Listed(proc.facts, d) && d in proc.seen && proc.seen[d].Some? ==> d in w.files
    ensures forall d :: Listed(proc.facts, d) ==> d in proc.seen && proc.seen[d] == ContentOf(w, d)
  {
    forall d | Listed(proc.facts, d)
      ensures if d in w.files then w.files[d].stamp.mtime < proc.started else proc.seen[d].None?
    {
      assert d in Directories(proc.facts) && !ChangedSince(w, d, proc.started);
    }
    UnchangedIsAsFound(sys, w, proc);
  }

  lemma StepKeepsSound(sys: System, w: World, s: Step)
    requires ProbesAreLocal(sys) && Sound(sys, w) && Enabled(sys, w, s) && Careful(sys, w, s)
    ensures Sound(sys, Apply(sys, w, s))
  {
    StepEvolves(sys, w, s);
    StepKeepsSteady(sys, w, s);
    var w' := Apply(sys, w, s);
    forall name | name in w'.cache ensures Explained(sys, w', w'.cache[name]) {
      if s.Keep? { KeepKeepsEntries(sys, w, w.procs[s.pid], name); }
      ExplainedStays(sys, w, w', w'.cache[name]);
    }
  }

  // ---------------------------------------------------------------- whole runs

  /** Nothing cached and nobody at work; what is on disk was written before now. */
  predicate Initial(w: World) {
    && w.cache == map[] && w.procs == map[]
    && forall p :: p in w.files ==> w.files[p].stamp.mtime < w.clock
  }

  /** The world after the steps; None if one of them cannot be taken. */
  function Run(sys: System, w: World, steps: seq<Step>): Option<World>
    decreases |steps|
  {
    if steps == [] then Some(w)
    else if Enabled(sys, w, steps[0]) then Run(sys, Apply(sys, w, steps[0]), steps[1..])
    else None
  }

  predicate Reaches(sys: System, w: World, steps: seq<Step>, w': World) { Run(sys, w, steps) == Some(w') }

  /** A run in which no answer is stored that is not to be trusted. */
  predicate CarefulRun(sys: System, w: World, steps: seq<Step>)
    decreases |steps|
  {
    steps != [] ==>
      && Enabled(sys, w, steps[0]) && Careful(sys, w, steps[0])
      && CarefulRun(sys, Apply(sys, w, steps[0]), steps[1..])
  }

  lemma {:induction false} RunsKeepSteady(sys: System, w: World, steps: seq<Step>, w': World)
    requires Steady(sys, w) && Reaches(sys, w, steps, w')
    ensures Steady(sys, w')
    decreases |steps|
  {
    if steps == [] {
    } else {
      StepKeepsSteady(sys, w, steps[0]);
      RunsKeepSteady(sys, Apply(sys, w, steps[0]), steps[1..], w');
    }
  }

  lemma {:induction false} RunsKeepSound(sys: System, w: World, steps: seq<Step>, w': World)
    requires ProbesAreLocal(sys) && Sound(sys, w) && Reaches(sys, w, steps, w') && CarefulRun(sys, w, steps)
    ensures Sound(sys, w')
    decreases |steps|
  {
    if steps == [] {
    } else {
      StepKeepsSound(sys, w, steps[0]);
      RunsKeepSound(sys, Apply(sys, w, steps[0]), steps[1..], w');
    }
  }

  /** Whatever is found on disk is what a probe would answer. */
  lemma SoundHitIsFresh(sys: System, w: World, path: Path, env: seq<Option<string>>, digest: nat)
    requires Sound(sys, w) && CachedFacts(sys, w, path, env, digest).Hit?
    ensures CachedFacts(sys, w, path, env, digest).facts == Fresh(sys, w, path, env, digest)
  {
    var key := KeyOf(sys, w, path, env, digest);
    ExplainedHitIsFresh(sys, w, w.cache[(sys.nameOf)(key)], path, env, digest);
  }

  /** Facts from disk are what a probe would answer now, after any interleaving of steps. */
  lemma CachedFactsAreFresh(sys: System, w: World, steps: seq<Step>, w': World,
                            path: Path, env: seq<Option<string>>, digest: nat)
    requires ProbesAreLocal(sys) && Initial(w) && Reaches(sys, w, steps, w') && CarefulRun(sys, w, steps)
    requires CachedFacts(sys, w', path, env, digest).Hit?
    ensures CachedFacts(sys, w', path, env, digest).facts == Fresh(sys, w', path, env, digest)
  {
    RunsKeepSound(sys, w, steps, w');
    SoundHitIsFresh(sys, w', path, env, digest);
  }

  // ---------------------------------------------------------------- answers kept as soon as they are checked

  /**
   During the probe nothing has gone or turned that its stamps do not show: no
   `pyvenv.cfg` has appeared, no link leads elsewhere, no directory it found
   is gone.  Directories may well have changed.
   */
  predicate NothingTurned(sys: System, w: World, proc: Phase)
    requires HasAnswer(proc)
  {
    var key, cfg := proc.key, sys.cfgOf(proc.key.path);
    && (key.cfg.None? && cfg in proc.seen ==> proc.seen[cfg].None?)
    && Resolve(w.links, key.path) == key.target == Resolve(proc.rest.links, key.path)
    && Resolve(w.links, proc.facts.executable) == Resolve(proc.rest.links, proc.facts.executable)
    && forall d :: d in Directories(proc.facts) && d != "" && d in proc.seen && proc.seen[d].Some? ==> d in w.files
  }

  /** An answer kept right after its check, a check of one during which nothing has turned, or another step. */
  predicate FollowsRule(sys: System, w: World, last: Option<Step>, s: Step)
    requires Enabled(sys, w, s)
  {
    && (s.Keep? ==> last == Some(Check(s.pid)))
    && (s.Check? ==> NothingTurned(sys, w, w.procs[s.pid]))
  }

  /** The world after steps that follow the rule; `last` is the step before, and None if one of them does not. */
  function PromptRun(sys: System, w: World, last: Option<Step>, steps: seq<Step>): Option<World>
    decreases |steps|
  {
    if steps == [] then Some(w)
    else if Enabled(sys, w, steps[0]) && FollowsRule(sys, w, last, steps[0])
    then PromptRun(sys, Apply(sys, w, steps[0]), Some(steps[0]), steps[1..])
    else None
  }

  predicate Prompt(sys: System, w: World, last: Option<Step>, steps: seq<Step>) {
    PromptRun(sys, w, last, steps).Some?
  }

  /** A run stays prompt if one more step follows the rule. */
  lemma {:induction false} PromptFurther(sys: System, w: World, last: Option<Step>, steps: seq<Step>, w': World, s: Step)
    requires Reaches(sys, w, steps, w') && Prompt(sys, w, last, steps) && Enabled(sys, w', s)
    requires FollowsRule(sys, w', if steps == [] then last else Some(steps[|steps| - 1]), s)
    ensures Prompt(sys, w, last, steps + [s])
    decreases |steps|
  {
    if steps == [] {
      assert [s][1..] == [];
    } else {
      PromptFurther(sys, Apply(sys, w, steps[0]), Some(steps[0]), steps[1..], w', s);
      assert (steps + [s])[1..] == steps[1..] + [s];
    }
  }

  /** What has just been checked. */
  predicate JustChecked(sys: System, w: World, last: Option<Step>) {
    last.Some? && last.value.Check? && last.value.pid in w.procs && w.procs[last.value.pid].Checked? ==>
      var proc := w.procs[last.value.pid];
      Keepable(w, proc.key, proc.facts, proc.started) && NothingTurned(sys, w, proc)
  }

  lemma CheckedFits(sys: System, w: World, proc: Phase)
    requires HasAnswer(proc) && ProcSound(sys, w, proc)
    requires Keepable(w, proc.key, proc.facts, proc.started) && NothingTurned(sys, w, proc)
    ensures FitsKey(sys, w, proc)
  {
    KeepableIsAsFound(sys, w, proc);
  }

  lemma CheckIsRemembered(sys: System, w: World, s: Step)
    requires Enabled(sys, w, s) && (s.Check? ==> NothingTurned(sys, w, w.procs[s.pid]))
    ensures JustChecked(sys, Apply(sys, w, s), Some(s))
  {
  }

  /** Then the test of the stamps is enough: nothing untrusted is kept. */
  lemma {:induction false} PromptIsCareful(sys: System, w: World, last: Option<Step>, steps: seq<Step>)
    requires Steady(sys, w) && JustChecked(sys, w, last) && Prompt(sys, w, last, steps)
    ensures CarefulRun(sys, w, steps)
    decreases |steps|
  {
    if steps == [] {
    } else {
      var s := steps[0];
      if s.Keep? { CheckedFits(sys, w, w.procs[s.pid]); }
      StepKeepsSteady(sys, w, s);
      CheckIsRemembered(sys, w, s);
      PromptIsCareful(sys, Apply(sys, w, s), Some(s), steps[1..]);
    }
  }

  /**
   The check does what it is for: in every run in which answers are kept right
   after their check and nothing has turned meanwhile, whatever has happened to
   the directories, facts from disk are what a probe would answer now.
   */
  lemma CheckedFactsAreFresh(sys: System, w: World, steps: seq<Step>, w': World,
                             path: Path, env: seq<Option<string>>, digest: nat)
    requires ProbesAreLocal(sys) && Initial(w) && Reaches(sys, w, steps, w') && Prompt(sys, w, None, steps)
    requires CachedFacts(sys, w', path, env, digest).Hit?
    ensures CachedFacts(sys, w', path, env, digest).facts == Fresh(sys, w', path, env, digest)
  {
    PromptIsCareful(sys, w, None, steps);
    CachedFactsAreFresh(sys, w, steps, w', path, env, digest);
  }

  /** A kept answer is found again exactly as long as the key and every stamp are the same. */
  lemma KeptIsFound(sys: System, w: World, w': World, key: Key, facts: Facts,
                    path: Path, env: seq<Option<string>>, digest: nat)
    requires w'.cache == Kept(sys, w, key, facts).cache
    requires Resolve(w'.links, path) in w'.files && (sys.nameOf)(KeyOf(sys, w', path, env, digest)) == (sys.nameOf)(key)
    ensures CachedFacts(sys, w', path, env, digest).Hit? <==>
              && KeyOf(sys, w', path, env, digest) == key
              && forall d :: Listed(facts, d) ==> StampOf(w', d) == StampOf(w, d)
    ensures CachedFacts(sys, w', path, env, digest).Hit? ==> CachedFacts(sys, w', path, env, digest) == Hit(facts)
  {
    var stamps := Stamps(w, Directories(facts));
    if forall d :: Listed(facts, d) ==> StampOf(w', d) == StampOf(w, d) {
      forall k | 0 <= k < |stamps| ensures StampOf(w', stamps[k].0) == stamps[k].1 {
        assert stamps[k] in stamps;
        assert Listed(facts, stamps[k].0);
      }
    }
    if StampsHold(w', stamps) {
      forall d | Listed(facts, d) ensures StampOf(w', d) == StampOf(w, d) {
        assert (d, StampOf(w, d)) in stamps;
        var k :| 0 <= k < |stamps| && stamps[k] == (d, StampOf(w, d));
      }
    }
  }

  // ---------------------------------------------------------------- no weaker test would do

  /** Systems that differ in nothing but what their interpreters answer. */
  ghost predicate SameLayout(sys: System, sys': System) {
    sys'.cfgOf == sys.cfgOf && sys'.nameOf == sys.nameOf
  }

  predicate OfWorld(s: Step) {
    s.Write? || s.Remove? || s.Relink? || s.ChangeElsewhere? || s.Tick?
  }

  /** The world without any process, and with only one of them. */
  function Bare(w: World): World { w.(cache := map[], procs := map[]) }

  function Solo(w: World, pid: nat): World
    requires pid in w.procs
  {
    w.(cache := map[], procs := map[pid := w.procs[pid]])
  }

  lemma {:induction false} LastStep(sys: System, w0: World, steps: seq<Step>, w: World) returns (before: World)
    requires Reaches(sys, w0, steps, w) && steps != []
    ensures Reaches(sys, w0, steps[..|steps| - 1], before)
    ensures Reaches(sys, before, [steps[|steps| - 1]], w)
    decreases |steps|
  {
    var n := |steps| - 1;
    if n == 0 {
      before := w0;
      assert steps == [steps[0]];
    } else {
      before := LastStep(sys, Apply(sys, w0, steps[0]), steps[1..], w);
      assert steps[..n][1..] == steps[1..][..n - 1];
    }
  }

  /** What happens to the world does not depend on who is at work. */
  lemma {:induction false} BareRun(sys: System, sys': System, w0: World, steps: seq<Step>, w: World)
    returns (run: seq<Step>)
    requires Initial(w0) && Reaches(sys, w0, steps, w)
    ensures Reaches(sys', w0, run, Bare(w))
    decreases |steps|
  {
    if steps == [] {
      run := [];
      assert Bare(w0) == w0;
    } else {
      var n := |steps| - 1;
      var before := LastStep(sys, w0, steps, w);
      var last := [steps[n]];
      assert last[1..] == [] && Enabled(sys, before, last[0]);
      assert Run(sys, Apply(sys, before, steps[n]), []) == Some(w);
      run := BareRun(sys, sys', w0, steps[..n], before);
      if OfWorld(steps[n]) {
        ReachesFurther(sys', w0, run, Bare(before), steps[n]);
        run := run + [steps[n]];
        assert Apply(sys', Bare(before), steps[n]) == Bare(w);
      } else {
        assert Bare(before) == Bare(w);
      }
    }
  }

  /** What a step has to do with a process that is there after it. */
  lemma StepOf(sys: System, before: World, s: Step, pid: nat)
    requires Enabled(sys, before, s) && pid in Apply(sys, before, s).procs
    ensures var w := Apply(sys, before, s);
            || (pid in before.procs && before.procs[pid] == w.procs[pid])
            || (s.LookUp? && s.pid == pid && pid !in before.procs && w.procs[pid].Missed?)
            || (pid in before.procs && s.pid == pid && !HasAnswer(before.procs[pid])
                && (s.StartProbe? || s.Observe? || s.Answer?))
            || (pid in before.procs && s == Check(pid) && w.procs[pid].Checked?
                && forall sys' :: SameAnswer(sys', w.procs[pid]) ==> SameAnswer(sys', before.procs[pid]))
  {
  }

  lemma LookUpAlone(sys: System, sys': System, before: World, s: Step)
    requires Enabled(sys, before, s) && s.LookUp? && SameLayout(sys, sys')
    requires s.pid in Apply(sys, before, s).procs
    ensures Enabled(sys', Bare(before), s)
    ensures Apply(sys', Bare(before), s) == Solo(Apply(sys, before, s), s.pid)
  {
  }

  /** A process gets where it is also alone, in any system that answers it alike. */
  lemma {:induction false} SoloRun(sys: System, sys': System, w0: World, steps: seq<Step>, w: World, pid: nat)
    returns (run: seq<Step>)
    requires Initial(w0) && Reaches(sys, w0, steps, w) && SameLayout(sys, sys')
    requires pid in w.procs && (HasAnswer(w.procs[pid]) ==> SameAnswer(sys', w.procs[pid]))
    ensures Reaches(sys', w0, run, Solo(w, pid))
    decreases |steps|
  {
    var n := |steps| - 1;
    var before := LastStep(sys, w0, steps, w);
    var last := [steps[n]];
    assert last[1..] == [] && Enabled(sys, before, last[0]);
    assert Run(sys, Apply(sys, before, steps[n]), []) == Some(w);
    var s := steps[n];
    StepOf(sys, before, s, pid);
    if pid !in before.procs {
      run := BareRun(sys, sys', w0, steps[..n], before);
      LookUpAlone(sys, sys', before, s);
      ReachesFurther(sys', w0, run, Bare(before), s);
      run := run + [s];
    } else {
      run := SoloRun(sys, sys', w0, steps[..n], before, pid);
      if before.procs[pid] != w.procs[pid] || OfWorld(s) {
        run := SoloStep(sys, sys', w0, run, before, s, w, pid);
      } else {
        assert Solo(before, pid) == Solo(w, pid);
      }
    }
  }

  lemma SoloStep(sys: System, sys': System, w0: World, run: seq<Step>, before: World, s: Step, w: World, pid: nat)
    returns (more: seq<Step>)
    requires Enabled(sys, before, s) && w == Apply(sys, before, s) && SameLayout(sys, sys')
    requires pid in before.procs && pid in w.procs
    requires OfWorld(s) || ((s.StartProbe? || s.Observe? || s.Answer? || s.Check?) && s.pid == pid)
    requires HasAnswer(w.procs[pid]) ==> SameAnswer(sys', w.procs[pid])
    requires Reaches(sys', w0, run, Solo(before, pid))
    ensures Reaches(sys', w0, more, Solo(w, pid))
  {
    if OfWorld(s) { WorldStepAlone(sys, sys', before, s, pid); } else { OwnStepAlone(sys, sys', before, s, pid); }
    ReachesFurther(sys', w0, run, Solo(before, pid), s);
    more := run + [s];
  }

  lemma WorldStepAlone(sys: System, sys': System, before: World, s: Step, pid: nat)
    requires Enabled(sys, before, s) && OfWorld(s) && pid in before.procs
    ensures Enabled(sys', Solo(before, pid), s)
    ensures Apply(sys', Solo(before, pid), s) == Solo(Apply(sys, before, s), pid)
  {
  }

  lemma OwnStepAlone(sys: System, sys': System, before: World, s: Step, pid: nat)
    requires Enabled(sys, before, s) && SameLayout(sys, sys') && pid in before.procs
    requires (s.StartProbe? || s.Observe? || s.Answer? || s.Check?) && s.pid == pid
    requires pid in Apply(sys, before, s).procs
    requires s.Answer? ==> SameAnswer(sys', Apply(sys, before, s).procs[pid])
    ensures Enabled(sys', Solo(before, pid), s)
    ensures Apply(sys', Solo(before, pid), s) == Solo(Apply(sys, before, s), pid)
  {
    var alone, w := Solo(before, pid), Apply(sys, before, s);
    assert Enabled(sys', alone, s);
    assert Apply(sys', alone, s).procs == map[pid := w.procs[pid]];
  }

  // A store that is not to be trusted: systems in which the answer later is wrong.

  function Other(facts: Facts): Facts { facts.(detail := facts.detail + 1) }

  /** Only these inputs give this answer. */
  function ByInputs(sys: System, i0: Inputs, facts: Facts): System {
    sys.(probe := (i: Inputs, v: View, rest: Rest) => if i == i0 then facts else Other(facts))
  }

  /** Only a directory that is like this gives this answer. */
  function ByDirectory(sys: System, d: Path, c: Option<Content>, facts: Facts): System {
    sys.(probe := (i: Inputs, v: View, rest: Rest) => if At(v, d) == c then facts else Other(facts))
  }

  lemma {:induction false} NewPath(s: set<Path>) returns (p: Path)
    ensures forall q :: q in s ==> |q| < |p|
  {
    if s == {} {
      p := "";
    } else {
      var q :| q in s;
      p := NewPath(s - {q});
      p := p + q + "x";
    }
  }

  /** A path that leads to itself, and not to `target`. */
  ghost predicate Astray(links: map<Path, Path>, target: Path, p: Path) { p !in links && p != target }

  lemma SomeAstray(links: map<Path, Path>, target: Path)
    ensures exists p :: Astray(links, target, p)
  {
    var p := NewPath(links.Keys + {target});
    assert Astray(links, target, p);
  }

  ghost function ShimAnswer(i: Inputs, rest: Rest, facts: Facts): (r: Facts)
    ensures Resolve(rest.links, r.executable) != i.target
    ensures Resolve(rest.links, facts.executable) != i.target ==> r == facts
  {
    if Resolve(rest.links, facts.executable) != i.target then facts
    else
      SomeAstray(rest.links, i.target);
      var p :| Astray(rest.links, i.target, p);
      facts.(executable := p)
  }

  /** Nothing but shims. */
  ghost function ByLinks(sys: System, facts: Facts): System {
    sys.(probe := (i: Inputs, v: View, rest: Rest) => ShimAnswer(i, rest, facts))
  }

  /** Afterwards the links lead where the key says, and `pyvenv.cfg` is gone if it has none. */
  function Back(sys: System, w: World, key: Key, facts: Facts): World {
    w.(links := w.links[key.path := key.target][facts.executable := key.target],
       files := if key.cfg.None? then w.files - {sys.cfgOf(key.path)} else w.files)
  }

  function BackSteps(sys: System, w: World, key: Key, facts: Facts): seq<Step> {
    [Relink(w.links[key.path := key.target][facts.executable := key.target])]
    + if key.cfg.None? then [Remove(sys.cfgOf(key.path))] else []
  }

  lemma BackIsReached(sys: System, w: World, key: Key, facts: Facts)
    ensures Reaches(sys, w, BackSteps(sys, w, key, facts), Back(sys, w, key, facts))
    ensures CarefulRun(sys, w, BackSteps(sys, w, key, facts))
  {
    var steps := BackSteps(sys, w, key, facts);
    var w1 := Apply(sys, w, steps[0]);
    if key.cfg.None? {
      assert steps[1..] == [Remove(sys.cfgOf(key.path))] && steps[1..][1..] == [];
      assert Apply(sys, w1, steps[1]) == Back(sys, w, key, facts);
      assert Run(sys, w1, steps[1..]) == Run(sys, Back(sys, w, key, facts), []);
    } else {
      assert steps[1..] == [];
      assert w1 == Back(sys, w, key, facts);
    }
  }

  /** The world right after a process on its own has kept its answer. */
  function AfterKeep(sys: System, w: World, pid: nat): World
    requires pid in w.procs && w.procs[pid].Checked?
  {
    Apply(sys, Solo(w, pid), Keep(pid))
  }

  lemma BackHits(sys: System, w: World, pid: nat)
    requires pid in w.procs && w.procs[pid].Checked?
    requires CanComeBack(sys, w, w.procs[pid].key, w.procs[pid].facts)
    ensures var proc := w.procs[pid];
            var w' := Back(sys, AfterKeep(sys, w, pid), proc.key, proc.facts);
            CachedFacts(sys, w', proc.key.path, proc.key.env, proc.key.digest) == Hit(proc.facts)
  {
    var proc := w.procs[pid];
    var key, facts := proc.key, proc.facts;
    var w' := Back(sys, AfterKeep(sys, w, pid), key, facts);
    assert Resolve(w'.links, key.path) == key.target && key.target in w'.files;
    assert KeyOf(sys, w', key.path, key.env, key.digest) == key;
    assert AfterKeep(sys, w, pid).cache == Kept(sys, Solo(w, pid), key, facts).cache;
    KeptIsFound(sys, Solo(w, pid), w', key, facts, key.path, key.env, key.digest);
    forall d | Listed(facts, d) ensures StampOf(w', d) == StampOf(Solo(w, pid), d) {}
  }

  /** An answer that has passed the check and whose entry could be found. */
  ghost predicate Threatens(sys: System, w: World, proc: Phase) {
    proc.Checked? && ProcSound(sys, w, proc) && CanComeBack(sys, w, proc.key, proc.facts)
  }

  /** The system answers the process alike, but not any more once the key is current again. */
  ghost predicate Belies(sys: System, w: World, proc: Phase)
    requires proc.Checked?
  {
    var w' := Back(sys, w, proc.key, proc.facts);
    && ProbesAreLocal(sys) && SameAnswer(sys, proc)
    && Resolve(w'.links, proc.key.path) in w'.files
    && Fresh(sys, w', proc.key.path, proc.key.env, proc.key.digest) != proc.facts
  }

  lemma OtherInputsBelie(sys: System, w: World, proc: Phase)
    requires Threatens(sys, w, proc)
    requires var ran := Resolve(proc.rest.links, proc.key.path);
             ran != proc.key.target || (proc.key.cfg.None? && proc.seen[sys.cfgOf(proc.key.path)].Some?)
    ensures var i0 := SeenInputs(sys, proc.key, Resolve(proc.rest.links, proc.key.path), proc.seen);
            Belies(ByInputs(sys, i0, proc.facts), w, proc)
  {
  }

  lemma ShimsBelie(sys: System, w: World, proc: Phase)
    requires Threatens(sys, w, proc) && Resolve(proc.rest.links, proc.key.path) == proc.key.target
    requires Resolve(proc.rest.links, proc.facts.executable) != proc.key.target
    ensures Belies(ByLinks(sys, proc.facts), w, proc)
  {
  }

  lemma ChangedDirectoryBelies(sys: System, w: World, proc: Phase, d: Path)
    requires Threatens(sys, w, proc)
    requires Listed(proc.facts, d) && d in proc.seen && proc.seen[d] != ContentOf(w, d)
    ensures Belies(ByDirectory(sys, d, proc.seen[d], proc.facts), w, proc)
  {
    assert Listed(Other(proc.facts), d);
  }

  lemma Untrue(sys: System, w: World, proc: Phase)
    requires Threatens(sys, w, proc) && !FitsKey(sys, w, proc)
    ensures exists sys' :: SameLayout(sys, sys') && Belies(sys', w, proc)
  {
    var ran, sys' := Resolve(proc.rest.links, proc.key.path), sys;
    if (proc.key.cfg.None? && proc.seen[sys.cfgOf(proc.key.path)].Some?) || ran != proc.key.target {
      sys' := ByInputs(sys, SeenInputs(sys, proc.key, ran, proc.seen), proc.facts);
      OtherInputsBelie(sys, w, proc);
    } else if Resolve(proc.rest.links, proc.facts.executable) != proc.key.target {
      sys' := ByLinks(sys, proc.facts);
      ShimsBelie(sys, w, proc);
    } else {
      var d :| d in Directories(proc.facts) && d != "" && d in proc.seen && proc.seen[d] != ContentOf(w, d);
      sys' := ByDirectory(sys, d, proc.seen[d], proc.facts);
      ChangedDirectoryBelies(sys, w, proc, d);
    }
    assert SameLayout(sys, sys') && Belies(sys', w, proc);
  }

  /** A disk answer that no probe would give, at the end of a run from an empty cache. */
  ghost predicate Misleads(sys: System, w: World, steps: seq<Step>, w': World,
                           path: Path, env: seq<Option<string>>, digest: nat) {
    && ProbesAreLocal(sys) && Initial(w) && Reaches(sys, w, steps, w')
    && CachedFacts(sys, w', path, env, digest).Hit?
    && CachedFacts(sys, w', path, env, digest).facts != Fresh(sys, w', path, env, digest)
  }

  /** After this, no careful run makes the disk give a wrong answer. */
  ghost predicate Reliable(sys: System, w: World) {
    forall steps, w', path, env, digest ::
      CarefulRun(sys, w, steps) && Reaches(sys, w, steps, w') && CachedFacts(sys, w', path, env, digest).Hit? ==>
        CachedFacts(sys, w', path, env, digest).facts == Fresh(sys, w', path, env, digest)
  }

  lemma BackMisleads(sys: System, w: World, pid: nat)
    requires pid in w.procs && Threatens(sys, w, w.procs[pid]) && Belies(sys, w, w.procs[pid])
    ensures var key, w' := w.procs[pid].key, Back(sys, AfterKeep(sys, w, pid), w.procs[pid].key, w.procs[pid].facts);
            && CachedFacts(sys, w', key.path, key.env, key.digest).Hit?
            && CachedFacts(sys, w', key.path, key.env, key.digest).facts != Fresh(sys, w', key.path, key.env, key.digest)
  {
    var proc := w.procs[pid];
    var w', bare := Back(sys, AfterKeep(sys, w, pid), proc.key, proc.facts), Back(sys, w, proc.key, proc.facts);
    BackHits(sys, w, pid);
    assert w'.files == bare.files && w'.links == bare.links && w'.elsewhere == bare.elsewhere;
  }

  lemma {:induction false} ReachesOn(sys: System, w0: World, a: seq<Step>, w1: World, b: seq<Step>, w2: World)
    requires Reaches(sys, w0, a, w1) && Reaches(sys, w1, b, w2)
    ensures Reaches(sys, w0, a + b, w2)
    decreases |a|
  {
    if a == [] {
      assert a + b == b;
    } else {
      ReachesOn(sys, Apply(sys, w0, a[0]), a[1..], w1, b, w2);
      assert (a + b)[1..] == a[1..] + b;
    }
  }

  /**
   Every answer that is kept although it is not to be trusted misleads: in a
   system with the same layout and this same answer, in which interpreters
   answer by their inputs and directories, the process gets as far from the
   same start, stores, and a wrong answer is found later.
   */
  lemma UntrustedStoreMisleads(sys: System, w0: World, steps: seq<Step>, w: World, pid: nat)
    returns (sys': System, run: seq<Step>, w': World)
    requires Initial(w0) && Reaches(sys, w0, steps, w)
    requires pid in w.procs && w.procs[pid].Checked? && !Trusted(sys, w, w.procs[pid])
    ensures SameLayout(sys, sys') && SameAnswer(sys', w.procs[pid])
    ensures var key := w.procs[pid].key; Misleads(sys', w0, run, w', key.path, key.env, key.digest)
    ensures !Reliable(sys', AfterKeep(sys', w, pid))
  {
    var proc := w.procs[pid];
    RunsKeepSteady(sys, w0, steps, w);
    Untrue(sys, w, proc);
    sys' :| SameLayout(sys, sys') && Belies(sys', w, proc);
    run := SoloRun(sys, sys', w0, steps, w, pid);
    var w1 := AfterKeep(sys', w, pid);
    ReachesFurther(sys', w0, run, Solo(w, pid), Keep(pid));
    var back := BackSteps(sys', w1, proc.key, proc.facts);
    w' := Back(sys', w1, proc.key, proc.facts);
    BackIsReached(sys', w1, proc.key, proc.facts);
    BackMisleads(sys', w, pid);
    ReachesOn(sys', w0, run + [Keep(pid)], w1, back, w');
    run := run + [Keep(pid)] + back;
  }

  lemma TrustedStoreIsReliable(sys: System, w: World, pid: nat)
    requires ProbesAreLocal(sys) && (forall p :: p in w.files ==> w.files[p].stamp.mtime < w.clock)
    requires pid in w.procs && w.procs[pid].Checked? && ProcSound(sys, w, w.procs[pid])
    requires Trusted(sys, w, w.procs[pid])
    ensures Reliable(sys, AfterKeep(sys, w, pid))
  {
    var w1 := AfterKeep(sys, w, pid);
    ProcStays(sys, w, Solo(w, pid), w.procs[pid]);
    StepKeepsSound(sys, Solo(w, pid), Keep(pid));
    forall steps, w', path, env, digest |
      CarefulRun(sys, w1, steps) && Reaches(sys, w1, steps, w') && CachedFacts(sys, w', path, env, digest).Hit?
      ensures CachedFacts(sys, w', path, env, digest).facts == Fresh(sys, w', path, env, digest)
    {
      RunsKeepSound(sys, w1, steps, w');
      SoundHitIsFresh(sys, w', path, env, digest);
    }
  }

  /**
   The test is exact.  For every process that has answered in any run: its
   store is harmless in every system that would have answered it alike if and
   only if the answer is to be trusted.
   */
  lemma TrustExact(sys: System, w0: World, steps: seq<Step>, w: World, pid: nat)
    requires Initial(w0) && Reaches(sys, w0, steps, w)
    requires pid in w.procs && w.procs[pid].Checked?
    ensures (forall sys': System ::
               SameLayout(sys, sys') && ProbesAreLocal(sys') && SameAnswer(sys', w.procs[pid]) ==>
                 Reliable(sys', AfterKeep(sys', w, pid)))
       <==> Trusted(sys, w, w.procs[pid])
  {
    RunsKeepSteady(sys, w0, steps, w);
    if Trusted(sys, w, w.procs[pid]) {
      forall sys': System | SameLayout(sys, sys') && ProbesAreLocal(sys') && SameAnswer(sys', w.procs[pid])
        ensures Reliable(sys', AfterKeep(sys', w, pid))
      {
        assert ProcSound(sys', w, w.procs[pid]);
        TrustedStoreIsReliable(sys', w, pid);
      }
    } else {
      var sys', run, w' := UntrustedStoreMisleads(sys, w0, steps, w, pid);
    }
  }

  // ---------------------------------------------------------------- one process on its own

  /** Everything a probe in an undisturbed moment reads. */
  ghost function AllSeen(sys: System, w: World, key: Key, facts: Facts): map<Path, Option<Content>> {
    map p | p in w.files.Keys + {key.target, sys.cfgOf(key.path)} + (set d | d in Directories(facts)) :: ContentOf(w, p)
  }

  /** An answer given and stored in one undisturbed moment is sound and fits its key. */
  lemma UndisturbedAnswerIsSound(sys: System, w: World, path: Path, env: seq<Option<string>>, digest: nat)
    returns (proc: Phase)
    requires Steady(sys, w) && Resolve(w.links, path) in w.files
    ensures proc.Answered? && proc.key == KeyOf(sys, w, path, env, digest) && proc.started == w.clock
    ensures proc.facts == Fresh(sys, w, path, env, digest)
    ensures ProcSound(sys, w, proc)
    ensures Keepable(w, proc.key, proc.facts, proc.started) ==> FitsKey(sys, w, proc)
  {
    var key, facts := KeyOf(sys, w, path, env, digest), Fresh(sys, w, path, env, digest);
    var seen := AllSeen(sys, w, key, facts);
    assert SeenView(seen) == ViewNow(w);
    assert SeenInputs(sys, key, key.target, seen) == InputsNow(sys, w, path, env, digest);
    proc := Answered(key, w.clock, seen, facts, Rest(w.links, w.elsewhere));
  }

  /** Storing such an answer keeps the cache sound. */
  lemma UndisturbedStoreKeepsSound(sys: System, w: World, w': World, path: Path, env: seq<Option<string>>, digest: nat)
    requires ProbesAreLocal(sys) && Sound(sys, w) && Resolve(w.links, path) in w.files
    requires var key, facts := KeyOf(sys, w, path, env, digest), Fresh(sys, w, path, env, digest);
             w' == w || w' == Stored(sys, w, key, facts, w.clock)
    ensures Sound(sys, w')
  {
    var proc := UndisturbedAnswerIsSound(sys, w, path, env, digest);
    forall name | name in w'.cache ensures Explained(sys, w', w'.cache[name]) {
      if w' != w { KeepKeepsEntries(sys, w, proc, name); }
      ExplainedStays(sys, w, w', w'.cache[name]);
    }
    forall pid | pid in w'.procs ensures ProcSound(sys, w', w'.procs[pid]) {
      ProcStays(sys, w, w', w.procs[pid]);
    }
  }

  class Prober {
    const sys: System
    const caching: bool  // whether there is a directory for the cache
    const flaky: bool    // whether writing to it may fail
    var world: World
    var probed: map<Path, Facts>

    constructor (sys: System, caching: bool, flaky: bool, world: World)
      ensures this.sys == sys && this.caching == caching && this.flaky == flaky && this.world == world && probed == map[]
    {
      this.sys, this.caching, this.flaky, this.world, probed := sys, caching, flaky, world, map[];
    }

    method LookUpFacts(path: Path, env: seq<Option<string>>, digest: nat) returns (r: Lookup)
      ensures r == if caching then CachedFacts(sys, world, path, env, digest) else NoStore
    {
      if !caching { return NoStore; }
      if Resolve(world.links, path) !in world.files { return NoStore; }
      var key := KeyOf(sys, world, path, env, digest);
      var name := (sys.nameOf)(key);
      if name !in world.cache || world.cache[name].key != key { return Miss(key); }
      var directories := world.cache[name].directories;
      for k := 0 to |directories|
        invariant forall j :: 0 <= j < k ==> StampOf(world, directories[j].0) == directories[j].1
      {
        if StampOf(world, directories[k].0) != directories[k].1 { return Miss(key); }
      }
      r := Hit(world.cache[name].facts);
    }

    /** Keeps the answer, or leaves the disk as it is when it may not hold or cannot be written. */
    method StoreFacts(key: Key, facts: Facts, started: nat) returns (written: bool)
      modifies this`world
      ensures world == if written then Stored(sys, old(world), key, facts, started) else old(world)
      ensures (exists d :: d in facts.path + [facts.userSite] && d != "" && d in old(world).files
                           && old(world).files[d].stamp.mtime >= started) ==> world == old(world)
      ensures Resolve(old(world).links, facts.executable) != Resolve(old(world).links, key.path) ==> world == old(world)
      ensures !flaky ==> written
    {
      if Resolve(world.links, facts.executable) != Resolve(world.links, key.path) { return true; }
      var directories := Directories(facts);
      for k := 0 to |directories|
        invariant forall j :: 0 <= j < k ==> !ChangedSince(world, directories[j], started)
      {
        if ChangedSince(world, directories[k], started) { return true; }
      }
      var stamps: seq<(Path, Option<Stamp>)> := [];
      var k := |directories|;
      while k > 0
        invariant 0 <= k <= |directories|
        invariant stamps == Stamps(world, directories[k..])
      {
        k := k - 1;
        assert directories[k..][1..] == directories[k + 1..];
        if directories[k] != "" {
          stamps := [(directories[k], StampOf(world, directories[k]))] + stamps;
        }
      }
      written := *;
      written := written || !flaky;
      if written {
        world := world.(cache := world.cache[(sys.nameOf)(key) := Entry(key, stamps, facts)]);
      }
    }

    /** Runs the probe after a miss and keeps its answer, if it may be kept. */
    method ProbeAndStore(path: Path, env: seq<Option<string>>, digest: nat) returns (facts: Facts)
      requires ProbesAreLocal(sys) && Sound(sys, world) && Resolve(world.links, path) in world.files
      modifies this`world
      ensures Sound(sys, world) && world == old(world).(cache := world.cache)
      ensures facts == Fresh(sys, old(world), path, env, digest)
      ensures !flaky && Resolve(world.links, facts.executable) == Resolve(world.links, path) ==>
                CachedFacts(sys, world, path, env, digest) == Hit(facts)
    {
      var key, started := KeyOf(sys, world, path, env, digest), world.clock;
      facts := Fresh(sys, world, path, env, digest);
      var written := StoreFacts(key, facts, started);
      UndisturbedStoreKeepsSound(sys, old(world), world, path, env, digest);
      if Keepable(old(world), key, facts, started) && written {
        KeptIsFound(sys, old(world), world, key, facts, path, env, digest);
      }
    }

    /**
     The facts of the Python at `path`, or None when it cannot be run or is
     too old.  Only this process's own memory may be out of date: an answer
     from disk or from the probe is what a probe gives now, and, unless a shim
     gave it, the next process finds it on disk.
     */
    method Probe(path: Path, env: seq<Option<string>>, digest: nat) returns (r: Option<Facts>)
      requires ProbesAreLocal(sys) && Sound(sys, world)
      modifies this
      ensures Sound(sys, world) && world == old(world).(cache := world.cache)
      ensures path in old(probed) || !caching ==> world == old(world)
      ensures path in old(probed) ==> r == Some(old(probed)[path])
      ensures path !in old(probed) ==>
                var found := Resolve(world.links, path) in world.files;
                r == if found && Fresh(sys, world, path, env, digest).supported
                     then Some(Fresh(sys, world, path, env, digest)) else None
      ensures path !in old(probed) && caching && !flaky && Resolve(world.links, path) in world.files ==>
                var asked := Fresh(sys, world, path, env, digest);
                Resolve(world.links, asked.executable) == Resolve(world.links, path) ==>
                  CachedFacts(sys, world, path, env, digest) == Hit(asked)
      ensures probed == if r.Some? then old(probed)[path := r.value] else old(probed)
    {
      if path in probed { return Some(probed[path]); }
      var lookup := LookUpFacts(path, env, digest);
      var facts: Facts;
      match lookup {
        case NoStore =>
          if Resolve(world.links, path) !in world.files { return None; }
          facts := Fresh(sys, world, path, env, digest);
        case Hit(cached) =>
          SoundHitIsFresh(sys, world, path, env, digest);
          facts := cached;
        case Miss(_) =>
          facts := ProbeAndStore(path, env, digest);
      }
      if !facts.supported { return None; }
      probed := probed[path := facts];
      r := Some(facts);
    }
  }

  // ---------------------------------------------------------------- what the stamps cannot see

  /** A Python that answers for itself and reports whether `lib` is there. */
  function SimpleSystem(): System {
    System(p => "pyvenv.cfg", k => "entry",
           (i: Inputs, v: View, r: Rest) =>
             Facts(i.target, ["lib"], "", true,
                   i.exec + (if i.cfg.Some? then 10 else 0) + (if "lib" in v then 20 else 0)))
  }

  lemma SimpleSystemIsLocal()
    ensures ProbesAreLocal(SimpleSystem())
  {
    forall i: Inputs, v: View, rest: Rest
      ensures LocalAnswer(SimpleSystem(), i, v, (SimpleSystem().probe)(i, v, rest))
    {
      var f := (SimpleSystem().probe)(i, v, rest);
      assert Listed(f, "lib") by { assert Directories(f)[0] == "lib"; }
    }
  }

  function Start(links: map<Path, Path>): World {
    World(1, map["py" := File(1, Stamp(0, 0)), "py2" := File(2, Stamp(0, 0)), "lib" := File(3, Stamp(0, 0))],
          links, 0, map[], map[])
  }

  lemma {:induction false} ReachesFurther(sys: System, w: World, steps: seq<Step>, w': World, s: Step)
    requires Reaches(sys, w, steps, w') && Enabled(sys, w', s)
    ensures Reaches(sys, w, steps + [s], Apply(sys, w', s))
    decreases |steps|
  {
    if steps == [] {
      assert Reaches(sys, Apply(sys, w, s), [], Apply(sys, w', s));
      assert [s][1..] == [];
    } else {
      ReachesFurther(sys, Apply(sys, w, steps[0]), steps[1..], w', s);
      assert (steps + [s])[1..] == steps[1..] + [s];
    }
  }

  /** One more step of a run under construction. */
  lemma Then(w: World, steps: seq<Step>, w': World, s: Step) returns (more: seq<Step>, next: World)
    requires Reaches(SimpleSystem(), w, steps, w') && Enabled(SimpleSystem(), w', s)
    ensures more == steps + [s] && next == Apply(SimpleSystem(), w', s)
    ensures Reaches(SimpleSystem(), w, more, next)
    ensures Prompt(SimpleSystem(), w, None, steps)
            && FollowsRule(SimpleSystem(), w', if steps == [] then None else Some(steps[|steps| - 1]), s) ==>
              Prompt(SimpleSystem(), w, None, more)
  {
    ReachesFurther(SimpleSystem(), w, steps, w', s);
    if Prompt(SimpleSystem(), w, None, steps) {
      if FollowsRule(SimpleSystem(), w', if steps == [] then None else Some(steps[|steps| - 1]), s) {
        PromptFurther(SimpleSystem(), w, None, steps, w', s);
      }
    }
    more, next := steps + [s], Apply(SimpleSystem(), w', s);
  }

  /** A probe of `path` has started in a world where nobody else is at work. */
  lemma Started(w0: World, path: Path) returns (steps: seq<Step>, w: World)
    requires w0.cache == map[] && w0.procs == map[] && Resolve(w0.links, path) in w0.files
    ensures Reaches(SimpleSystem(), w0, steps, w)
    ensures w == w0.(procs := map[0 := Probing(KeyOf(SimpleSystem(), w0, path, [], 0), w0.clock, map[])])
    ensures Prompt(SimpleSystem(), w0, None, steps)
  {
    steps, w := Then(w0, [], w0, LookUp(0, path, [], 0));
    assert w == w0.(procs := map[0 := Missed(KeyOf(SimpleSystem(), w0, path, [], 0))]);
    steps, w := Then(w0, steps, w, StartProbe(0));
  }

  lemma Reads(w0: World, before: seq<Step>, w1: World, p: Path) returns (steps: seq<Step>, w: World)
    requires Reaches(SimpleSystem(), w0, before, w1) && 0 in w1.procs && w1.procs[0].Probing?
    ensures Reaches(SimpleSystem(), w0, steps, w)
    ensures var Probing(key, started, seen) := w1.procs[0];
            w == w1.(procs := w1.procs[0 := Probing(key, started, seen[p := ContentOf(w1, p)])])
    ensures Prompt(SimpleSystem(), w0, None, before) ==> Prompt(SimpleSystem(), w0, None, steps)
  {
    steps, w := Then(w0, before, w1, Observe(0, p));
  }

  /** It has read `target`, `pyvenv.cfg` and `lib`, and answers. */
  lemma AnswersAs(w0: World, before: seq<Step>, w1: World, facts: Facts) returns (steps: seq<Step>, w: World)
    requires Reaches(SimpleSystem(), w0, before, w1) && 0 in w1.procs && w1.procs[0].Probing?
    requires var Probing(key, started, seen) := w1.procs[0];
             && InputsSeen(SimpleSystem(), key, Resolve(w1.links, key.path), seen) && "lib" in seen
             && AnswerOf(SimpleSystem(), w1, key, seen) == facts
    ensures Reaches(SimpleSystem(), w0, steps, w)
    ensures var Probing(key, started, seen) := w1.procs[0];
            w == w1.(procs := w1.procs[0 := Answered(key, started, seen, facts, Rest(w1.links, w1.elsewhere))])
    ensures Directories(facts) == ["lib", ""]
    ensures Prompt(SimpleSystem(), w0, None, before) ==> Prompt(SimpleSystem(), w0, None, steps)
  {
    assert Directories(facts) == ["lib", ""];
    steps, w := Then(w0, before, w1, Answer(0));
  }

  /** The answer is kept, with the stamp `lib` has now. */
  lemma Keeps(w0: World, before: seq<Step>, w1: World) returns (steps: seq<Step>, w: World)
    requires Reaches(SimpleSystem(), w0, before, w1) && 0 in w1.procs && w1.procs[0].Answered?
    requires var proc := w1.procs[0];
             Directories(proc.facts) == ["lib", ""] && Keepable(w1, proc.key, proc.facts, proc.started)
    ensures Reaches(SimpleSystem(), w0, steps, w)
    ensures var proc := w1.procs[0];
            w == w1.(procs := w1.procs - {0},
                     cache := w1.cache["entry" := Entry(proc.key, [("lib", StampOf(w1, "lib"))], proc.facts)])
    ensures Prompt(SimpleSystem(), w0, None, before) && NothingTurned(SimpleSystem(), w1, w1.procs[0]) ==>
              Prompt(SimpleSystem(), w0, None, steps)
  {
    var Answered(key, started, seen, facts, rest) := w1.procs[0];
    steps, w := Then(w0, before, w1, Check(0));
    assert w == w1.(procs := w1.procs[0 := Checked(key, started, seen, facts, rest)]);
    assert ["lib", ""][1..] == [""] && [""][1..] == [];
    assert Stamps(w, [""]) == [];
    assert Stamps(w, ["lib", ""]) == [("lib", StampOf(w, "lib"))];
    assert ["lib", ""] == Directories(facts);
    steps, w := Then(w0, steps, w, Keep(0));
  }

  /** The world at the end of a misleading run: `facts` are on disk for `path`. */
  function Left(clock: nat, links: map<Path, Path>, lib: bool, path: Path, facts: Facts): World {
    var files := Start(links).files;
    World(clock, if lib then files else files - {"lib"}, links, 0,
          map["entry" := Entry(Key(path, "py", Stamp(0, 0), None, [], 0),
                               [("lib", if lib then Some(Stamp(0, 0)) else None)], facts)],
          map[])
  }

  /** Such an entry is found, and is wrong unless it is what `py` answers from what is there. */
  lemma LeftIsFound(clock: nat, links: map<Path, Path>, lib: bool, path: Path, facts: Facts)
    requires Resolve(links, path) == "py"
    ensures var w := Left(clock, links, lib, path, facts);
            CachedFacts(SimpleSystem(), w, path, [], 0) == Hit(facts)
            && Fresh(SimpleSystem(), w, path, [], 0) == Facts("py", ["lib"], "", true, if lib then 21 else 1)
  {
  }

  lemma DeletedDirectoryRun() returns (steps: seq<Step>)
    ensures Reaches(SimpleSystem(), Start(map[]), steps, Left(1, map[], false, "py", Facts("py", ["lib"], "", true, 21)))
  {
    var w0, w := Start(map[]), Start(map[]);
    steps, w := Started(w0, "py");
    steps, w := Reads(w0, steps, w, "py");
    steps, w := Reads(w0, steps, w, "pyvenv.cfg");
    steps, w := Reads(w0, steps, w, "lib");
    steps, w := AnswersAs(w0, steps, w, Facts("py", ["lib"], "", true, 21));
    steps, w := Then(w0, steps, w, Remove("lib"));
    steps, w := Keeps(w0, steps, w);
    assert w == Left(1, map[], false, "py", Facts("py", ["lib"], "", true, 21));
  }

  /** A directory the probe found is deleted before the answer is stored: it is kept as absent. */
  lemma DeletedDirectoryMisleads()
    ensures exists steps, w :: Misleads(SimpleSystem(), Start(map[]), steps, w, "py", [], 0)
  {
    var facts := Facts("py", ["lib"], "", true, 21);
    SimpleSystemIsLocal();
    var steps := DeletedDirectoryRun();
    var w := Left(1, map[], false, "py", facts);
    LeftIsFound(1, map[], false, "py", facts);
    assert Misleads(SimpleSystem(), Start(map[]), steps, w, "py", [], 0);
  }

  lemma UndisturbedRun() returns (steps: seq<Step>)
    ensures Reaches(SimpleSystem(), Start(map[]), steps, Left(1, map[], true, "py", Facts("py", ["lib"], "", true, 21)))
    ensures Prompt(SimpleSystem(), Start(map[]), None, steps)
  {
    var w0, w := Start(map[]), Start(map[]);
    steps, w := Started(w0, "py");
    steps, w := Reads(w0, steps, w, "py");
    steps, w := Reads(w0, steps, w, "pyvenv.cfg");
    steps, w := Reads(w0, steps, w, "lib");
    steps, w := AnswersAs(w0, steps, w, Facts("py", ["lib"], "", true, 21));
    steps, w := Keeps(w0, steps, w);
    assert w == Left(1, map[], true, "py", Facts("py", ["lib"], "", true, 21));
  }

  /** A run that follows the rule: an answer is kept, and found. */
  lemma PromptRunIsFound()
    ensures ProbesAreLocal(SimpleSystem()) && Initial(Start(map[]))
    ensures exists steps, w :: Reaches(SimpleSystem(), Start(map[]), steps, w) && Prompt(SimpleSystem(), Start(map[]), None, steps)
                               && CachedFacts(SimpleSystem(), w, "py", [], 0) == Hit(Facts("py", ["lib"], "", true, 21))
  {
    var facts := Facts("py", ["lib"], "", true, 21);
    SimpleSystemIsLocal();
    var steps := UndisturbedRun();
    var w := Left(1, map[], true, "py", facts);
    LeftIsFound(1, map[], true, "py", facts);
    assert Reaches(SimpleSystem(), Start(map[]), steps, w);
  }

  /** `pyvenv.cfg` was not there at the lookup and has appeared by now. */
  function NewConfiguration(): World {
    var w := Start(map[]);
    w.(clock := w.clock + 1, files := w.files["pyvenv.cfg" := File(4, Stamp(w.clock, 0))],
       procs := map[0 := Probing(KeyOf(SimpleSystem(), w, "py", [], 0), w.clock, map[])])
  }

  lemma NewConfigurationIsReached() returns (steps: seq<Step>)
    ensures Reaches(SimpleSystem(), Start(map[]), steps, NewConfiguration())
  {
    var w0, w := Start(map[]), Start(map[]);
    steps, w := Started(w0, "py");
    steps, w := Then(w0, steps, w, Write("pyvenv.cfg", 4, 0));
  }

  lemma NewConfigurationRun() returns (steps: seq<Step>)
    ensures Reaches(SimpleSystem(), Start(map[]), steps, Left(2, map[], true, "py", Facts("py", ["lib"], "", true, 31)))
  {
    var w0, w := Start(map[]), NewConfiguration();
    steps := NewConfigurationIsReached();
    steps, w := Reads(w0, steps, w, "py");
    steps, w := Reads(w0, steps, w, "pyvenv.cfg");
    steps, w := Reads(w0, steps, w, "lib");
    steps, w := AnswersAs(w0, steps, w, Facts("py", ["lib"], "", true, 31));
    steps, w := Keeps(w0, steps, w);
    steps, w := Then(w0, steps, w, Remove("pyvenv.cfg"));
    assert w == Left(2, map[], true, "py", Facts("py", ["lib"], "", true, 31));
  }

  /** A `pyvenv.cfg` that appears after the lookup is read by the probe, and later goes away again. */
  lemma NewConfigurationMisleads()
    ensures exists steps, w :: Misleads(SimpleSystem(), Start(map[]), steps, w, "py", [], 0)
  {
    var facts := Facts("py", ["lib"], "", true, 31);
    SimpleSystemIsLocal();
    var steps := NewConfigurationRun();
    var w := Left(2, map[], true, "py", facts);
    LeftIsFound(2, map[], true, "py", facts);
    assert Misleads(SimpleSystem(), Start(map[]), steps, w, "py", [], 0);
  }

  /** `link` led to `py` at the lookup and leads to `py2` by now. */
  function TurnedLink(): World {
    var w := Start(map["link" := "py"]);
    w.(links := map["link" := "py2"],
       procs := map[0 := Probing(KeyOf(SimpleSystem(), w, "link", [], 0), w.clock, map[])])
  }

  lemma TurnedLinkIsReached() returns (steps: seq<Step>)
    ensures Reaches(SimpleSystem(), Start(map["link" := "py"]), steps, TurnedLink())
  {
    var w0, w := Start(map["link" := "py"]), Start(map["link" := "py"]);
    steps, w := Started(w0, "link");
    steps, w := Then(w0, steps, w, Relink(map["link" := "py2"]));
  }

  lemma TurnedLinkRun() returns (steps: seq<Step>)
    ensures Reaches(SimpleSystem(), Start(map["link" := "py"]), steps,
                    Left(1, map["link" := "py"], true, "link", Facts("py2", ["lib"], "", true, 22)))
  {
    var w0, w := Start(map["link" := "py"]), TurnedLink();
    steps := TurnedLinkIsReached();
    steps, w := Reads(w0, steps, w, "py2");
    steps, w := Reads(w0, steps, w, "pyvenv.cfg");
    steps, w := Reads(w0, steps, w, "lib");
    steps, w := AnswersAs(w0, steps, w, Facts("py2", ["lib"], "", true, 22));
    steps, w := Keeps(w0, steps, w);
    steps, w := Then(w0, steps, w, Relink(map["link" := "py"]));
    assert w == Left(1, map["link" := "py"], true, "link", Facts("py2", ["lib"], "", true, 22));
  }

  /** A link that leads elsewhere while the probe runs, and back again later. */
  lemma TurnedLinkMisleads()
    ensures exists steps, w :: Misleads(SimpleSystem(), Start(map["link" := "py"]), steps, w, "link", [], 0)
  {
    var facts := Facts("py2", ["lib"], "", true, 22);
    SimpleSystemIsLocal();
    var steps := TurnedLinkRun();
    var w := Left(1, map["link" := "py"], true, "link", facts);
    LeftIsFound(1, map["link" := "py"], true, "link", facts);
    assert Misleads(SimpleSystem(), Start(map["link" := "py"]), steps, w, "link", [], 0);
  }
}
