/**
 Installing a list of requirements, each after removing what it replaces
 (req/__init__.py).  Uninstalling moves a distribution aside until the path
 set is committed or rolled back; how each installation ends is given.
 */
module Installation {
  import opened Basics

  type Dist = nat

  datatype Requirement = Requirement(name: string, shouldReinstall: bool, dist: Dist)

  /** Success, an exception that leaves nothing behind, or one after success was recorded. */
  datatype Ending = Succeeds | Fails | FailsLate

  datatype Result = Installed(names: seq<string>) | Raised(at: nat) | AssertionFailed

  datatype PathState = Pending | Committed | RolledBack

  class PathSet {
    const name: string
    const saved: Dist
    var state: PathState

    constructor (name: string, saved: Dist)
      ensures this.name == name && this.saved == saved && state == Pending
    {
      this.name, this.saved, state := name, saved, Pending;
    }
  }

  class Environment {
    var installed: map<string, Dist>

    constructor ()
      ensures installed == map[]
    {
      installed := map[];
    }

    /** None of the distribution is left; null when there was none. */
    method Uninstall(name: string) returns (p: PathSet?)
      modifies this
      ensures installed == old(installed) - {name}
      ensures p == null <==> name !in old(installed)
      ensures p != null ==> fresh(p) && p.name == name && p.saved == old(installed)[name] && p.state == Pending
    {
      p := null;
      if name in installed {
        p := new PathSet(name, installed[name]);
        installed := installed - {name};
      }
    }

    method Rollback(p: PathSet)
      requires p.state == Pending
      modifies this, p
      ensures p.state == RolledBack && installed == old(installed)[p.name := p.saved]
    {
      p.state := RolledBack;
      installed := installed[p.name := p.saved];
    }

    method Commit(p: PathSet)
      requires p.state == Pending
      modifies p
      ensures p.state == Committed
    {
      p.state := Committed;
    }

    method Install(req: Requirement, ending: Ending) returns (succeeded: bool, raised: bool)
      modifies this
      ensures succeeded == !ending.Fails? && raised == !ending.Succeeds?
      ensures installed == if succeeded then old(installed)[req.name := req.dist] else old(installed)
    {
      succeeded, raised := !ending.Fails?, !ending.Succeeds?;
      if succeeded { installed := installed[req.name := req.dist]; }
    }
  }

  /** A later requirement of the same name takes the place of the earlier one. */
  function Deduplicated(reqs: seq<Requirement>): seq<(string, Requirement)> {
    if reqs == [] then []
    else
      var last := reqs[|reqs| - 1];
      Put(Deduplicated(reqs[..|reqs| - 1]), last.name, last)
  }

  /** Each project once, and the requirement kept for it is the last one given. */
  lemma {:induction false} DeduplicatedKeepsLast(reqs: seq<Requirement>)
    ensures Distinct(Deduplicated(reqs))
    ensures forall e :: e in Deduplicated(reqs) ==> e.1 in reqs && e.1.name == e.0
    ensures forall name :: LastOf(Deduplicated(reqs), name) == LastNamed(reqs, name)
  {
    if reqs == [] {
    } else {
      var n := |reqs| - 1;
      var before, last := Deduplicated(reqs[..n]), reqs[n];
      DeduplicatedKeepsLast(reqs[..n]);
      PutKeepsDistinct(before, last.name, last);
      forall name ensures LastOf(Deduplicated(reqs), name) == LastNamed(reqs, name) {
        LastOfPut(before, last.name, last, name);
      }
      forall e | e in Deduplicated(reqs) ensures e.1 in reqs && e.1.name == e.0 {
        PutMembers(before, last.name, last, e);
      }
    }
  }

  lemma {:induction false} PutMembers(d: seq<(string, Requirement)>, key: string, value: Requirement, e: (string, Requirement))
    requires e in Put(d, key, value)
    ensures e == (key, value) || e in d
  {
    if d == [] || d[0].0 == key || e == d[0] {
    } else {
      assert e in Put(d[1..], key, value);
      PutMembers(d[1..], key, value, e);
    }
  }

  function LastNamed(reqs: seq<Requirement>, name: string): Option<Requirement> {
    if reqs == [] then None
    else if reqs[|reqs| - 1].name == name then Some(reqs[|reqs| - 1])
    else LastNamed(reqs[..|reqs| - 1], name)
  }

  lemma {:induction false} NotNamed(reqs: seq<Requirement>, name: string)
    ensures LastNamed(reqs, name).None? <==> forall i :: 0 <= i < |reqs| ==> reqs[i].name != name
  {
    if reqs == [] || reqs[|reqs| - 1].name == name {
    } else {
      NotNamed(reqs[..|reqs| - 1], name);
    }
  }

  /** A requirement that no later one replaces is the last of its name. */
  lemma {:induction false} LastNamedAt(reqs: seq<Requirement>, i: nat)
    requires i < |reqs| && forall j :: i < j < |reqs| ==> reqs[j].name != reqs[i].name
    ensures LastNamed(reqs, reqs[i].name) == Some(reqs[i])
  {
    var n := |reqs| - 1;
    if i == n {
    } else {
      assert reqs[n].name != reqs[i].name && reqs[..n][i] == reqs[i];
      LastNamedAt(reqs[..n], i);
    }
  }

  /** The first name is given before the second is given at all. */
  ghost predicate NamedBefore(reqs: seq<Requirement>, first: string, second: string) {
    exists p :: 0 <= p < |reqs| && reqs[p].name == first && forall q :: 0 <= q <= p ==> reqs[q].name != second
  }

  lemma NamedBeforeStays(reqs: seq<Requirement>, n: nat, first: string, second: string)
    requires n <= |reqs| && NamedBefore(reqs[..n], first, second)
    ensures NamedBefore(reqs, first, second)
  {
    var p :| 0 <= p < n && reqs[..n][p].name == first && forall q :: 0 <= q <= p ==> reqs[..n][q].name != second;
    assert reqs[p].name == first && forall q :: 0 <= q <= p ==> reqs[q] == reqs[..n][q];
  }

  lemma NewNameComesLast(reqs: seq<Requirement>, i: nat, name: string)
    requires i < |Deduplicated(reqs)| && forall e :: e in Deduplicated(reqs) ==> e.0 != name
    ensures NamedBefore(reqs, Deduplicated(reqs)[i].0, name)
  {
    var d := Deduplicated(reqs);
    DeduplicatedKeepsLast(reqs);
    NotListed(d, name);
    NotNamed(reqs, name);
    assert d[i] in d;
    var p :| 0 <= p < |reqs| && reqs[p] == d[i].1;
    assert reqs[p].name == d[i].0;
  }

  /** Projects keep the order in which they were first named. */
  lemma {:induction false} DeduplicatedKeepsOrder(reqs: seq<Requirement>, i: nat, j: nat)
    requires i < j < |Deduplicated(reqs)|
    ensures NamedBefore(reqs, Deduplicated(reqs)[i].0, Deduplicated(reqs)[j].0)
  {
    var n := |reqs| - 1;
    var before, d := Deduplicated(reqs[..n]), Deduplicated(reqs);
    if j < |before| {
      DeduplicatedKeepsOrder(reqs[..n], i, j);
    } else {
      DeduplicatedKeepsLast(reqs);
      forall e | e in before ensures e.0 != d[j].0 {
        var k :| 0 <= k < |before| && before[k] == e;
        assert d[k].0 == before[k].0;
      }
      NewNameComesLast(reqs[..n], i, d[j].0);
    }
    NamedBeforeStays(reqs, n, d[i].0, d[j].0);
  }

  type Todo = seq<(string, Requirement)>

  /** An environment with the first `k` requirements of the list installed. */
  function InstallFirst(todo: Todo, k: nat, env: map<string, Dist>): map<string, Dist>
    requires k <= |todo|
  {
    if k == 0 then env
    else InstallFirst(todo, k - 1, env)[todo[k - 1].1.name := todo[k - 1].1.dist]
  }

  /** The first `k` projects have the distributions listed for them, all others what they had. */
  lemma {:induction false} InstallFirstMeans(todo: Todo, k: nat, env: map<string, Dist>)
    requires k <= |todo| && Distinct(todo) && forall e :: e in todo ==> e.1.name == e.0
    ensures forall j :: 0 <= j < k ==> todo[j].0 in InstallFirst(todo, k, env)
                                       && InstallFirst(todo, k, env)[todo[j].0] == todo[j].1.dist
    ensures forall name | (forall j :: 0 <= j < k ==> todo[j].0 != name) ::
              (name in InstallFirst(todo, k, env) <==> name in env)
              && (name in env ==> InstallFirst(todo, k, env)[name] == env[name])
  {
    if k == 0 {
    } else {
      InstallFirstMeans(todo, k - 1, env);
      assert todo[k - 1] in todo;
    }
  }

  /** With the whole list installed, every project named has what the last requirement for it asked for. */
  lemma InstallAllMeans(reqs: seq<Requirement>, env: map<string, Dist>)
    ensures var r := InstallFirst(Deduplicated(reqs), |Deduplicated(reqs)|, env);
            && (forall i | 0 <= i < |reqs| && forall j :: i < j < |reqs| ==> reqs[j].name != reqs[i].name ::
                  reqs[i].name in r && r[reqs[i].name] == reqs[i].dist)
            && (forall name | forall i :: 0 <= i < |reqs| ==> reqs[i].name != name ::
                  (name in r <==> name in env) && (name in env ==> r[name] == env[name]))
  {
    var todo := Deduplicated(reqs);
    var r := InstallFirst(todo, |todo|, env);
    DeduplicatedKeepsLast(reqs);
    InstallFirstMeans(todo, |todo|, env);
    forall i | 0 <= i < |reqs| && forall j :: i < j < |reqs| ==> reqs[j].name != reqs[i].name
      ensures reqs[i].name in r && r[reqs[i].name] == reqs[i].dist
    {
      LastNamedAt(reqs, i);
      LastOfMeans(todo, reqs[i].name);
    }
    forall name | forall i :: 0 <= i < |reqs| ==> reqs[i].name != name
      ensures (name in r <==> name in env) && (name in env ==> r[name] == env[name])
    {
      NotNamed(reqs, name);
      LastOfMeans(todo, name);
    }
  }

  function EndingOf(endings: map<string, Ending>, name: string): Ending {
    if name in endings then endings[name] else Succeeds
  }

  predicate FirstSucceed(todo: Todo, k: nat, endings: map<string, Ending>)
    requires k <= |todo|
  {
    forall j :: 0 <= j < k ==> EndingOf(endings, todo[j].1.name) == Succeeds
  }

  function FirstNames(todo: Todo, k: nat): (r: seq<string>)
    requires k <= |todo|
    ensures |r| == k && forall j :: 0 <= j < k ==> r[j] == todo[j].1.name
  {
    if k == 0 then [] else FirstNames(todo, k - 1) + [todo[k - 1].1.name]
  }

  lemma EntryOf(reqs: seq<Requirement>, q: Requirement) returns (j: nat)
    requires q in reqs
    ensures j < |Deduplicated(reqs)| && Deduplicated(reqs)[j].1.name == q.name
  {
    var todo := Deduplicated(reqs);
    DeduplicatedKeepsLast(reqs);
    NotNamed(reqs, q.name);
    LastOfMeans(todo, q.name);
    j :| 0 <= j < |todo| && todo[j].0 == q.name;
    assert todo[j] in todo;
  }

  lemma RequirementOf(reqs: seq<Requirement>, j: nat)
    requires j < |Deduplicated(reqs)|
    ensures Deduplicated(reqs)[j].1 in reqs
  {
    DeduplicatedKeepsLast(reqs);
    assert Deduplicated(reqs)[j] in Deduplicated(reqs);
  }

  predicate MaySucceed(q: Requirement, endings: map<string, Ending>) {
    q.name in endings ==> endings[q.name].Succeeds?
  }

  lemma AllSucceed(reqs: seq<Requirement>, endings: map<string, Ending>)
    ensures FirstSucceed(Deduplicated(reqs), |Deduplicated(reqs)|, endings)
            <==> forall q :: q in reqs ==> MaySucceed(q, endings)
  {
    var todo := Deduplicated(reqs);
    if FirstSucceed(todo, |todo|, endings) {
      forall q | q in reqs ensures MaySucceed(q, endings) {
        var j := EntryOf(reqs, q);
        assert EndingOf(endings, todo[j].1.name) == Succeeds;
      }
    } else {
      var j :| 0 <= j < |todo| && EndingOf(endings, todo[j].1.name) != Succeeds;
      RequirementOf(reqs, j);
      assert !MaySucceed(todo[j].1, endings);
    }
  }

  /** One turn of the loop: the old distribution is moved aside, and comes back if nothing takes its place. */
  method InstallOne(env: Environment, req: Requirement, ending: Ending) returns (raised: bool, p: PathSet?)
    modifies env
    ensures raised == !ending.Succeeds?
    ensures env.installed == if ending.Fails? then old(env.installed) else old(env.installed)[req.name := req.dist]
    ensures p != null <==> req.shouldReinstall && req.name in old(env.installed)
    ensures p != null ==> fresh(p) && p.state == match ending
                            case Succeeds => Committed
                            case Fails => RolledBack
                            case FailsLate => Pending
  {
    ghost var before := env.installed;
    p := null;
    if req.shouldReinstall { p := env.Uninstall(req.name); }
    assert p == null ==> env.installed == before;
    var succeeded: bool;
    succeeded, raised := env.Install(req, ending);
    if raised {
      if p != null && !succeeded {
        env.Rollback(p);
        assert env.installed == before;
      }
    } else if p != null && succeeded {
      env.Commit(p);
    }
    assert succeeded ==> env.installed == before[req.name := req.dist];
  }

  /** What is installed and what is reported, for the requirements in order. */
  ghost predicate Ends(todo: Todo, endings: map<string, Ending>, r: Result, before: map<string, Dist>, after: map<string, Dist>) {
    match r
    case AssertionFailed => after == before
    case Installed(names) =>
      && FirstSucceed(todo, |todo|, endings) && names == FirstNames(todo, |todo|)
      && after == InstallFirst(todo, |todo|, before)
    case Raised(k) =>
      && k < |todo| && FirstSucceed(todo, k, endings)
      && var ending := EndingOf(endings, todo[k].1.name);
      && ending != Succeeds
      && after == InstallFirst(todo, if ending == Fails then k else k + 1, before)
  }

  ghost predicate AllCommitted(pathsets: seq<PathSet>)
    reads pathsets
  {
    forall i :: 0 <= i < |pathsets| ==> pathsets[i].state == Committed
  }

  /** The loop; `last` is the path set of the requirement that raised, if any. */
  method InstallEach(env: Environment, todo: Todo, endings: map<string, Ending>)
    returns (r: Result, pathsets: seq<PathSet>, last: PathSet?)
    modifies env
    ensures !r.AssertionFailed? && Ends(todo, endings, r, old(env.installed), env.installed)
    ensures AllCommitted(pathsets) && forall i :: 0 <= i < |pathsets| ==> fresh(pathsets[i])
    ensures r.Installed? ==> last == null
    ensures last != null ==> fresh(last) && last.state == if EndingOf(endings, todo[r.at].1.name) == Fails then RolledBack else Pending
  {
    pathsets, last := [], null;
    ghost var start := env.installed;
    var names: seq<string> := [];
    var k := 0;
    while k < |todo|
      invariant 0 <= k <= |todo| && last == null
      invariant FirstSucceed(todo, k, endings) && names == FirstNames(todo, k)
      invariant env.installed == InstallFirst(todo, k, start)
      invariant AllCommitted(pathsets) && forall i :: 0 <= i < |pathsets| ==> fresh(pathsets[i])
    {
      var req := todo[k].1;
      var raised, p := InstallOne(env, req, EndingOf(endings, req.name));
      if raised { return Raised(k), pathsets, p; }
      if p != null { pathsets := pathsets + [p]; }
      names := names + [req.name];
      k := k + 1;
    }
    r := Installed(names);
  }

  /**
   Requirements before the first that raises are installed and their old
   distributions gone for good.  The one that raises leaves the environment
   as if it had not been tried, unless it had already succeeded.
   */
  method InstallGivenReqs(env: Environment, reqs: seq<Requirement>, endings: map<string, Ending>)
    returns (r: Result, pathsets: seq<PathSet>, last: PathSet?)
    modifies env
    ensures r.AssertionFailed? <==> exists q :: q in reqs && q.name == ""
    ensures r.Installed? <==> forall q :: q in reqs ==> q.name != "" && MaySucceed(q, endings)
    ensures Ends(Deduplicated(reqs), endings, r, old(env.installed), env.installed)
    ensures r.Installed? ==>
              forall i | 0 <= i < |reqs| && forall j :: i < j < |reqs| ==> reqs[j].name != reqs[i].name ::
                reqs[i].name in env.installed && env.installed[reqs[i].name] == reqs[i].dist
    ensures r.Installed? ==>
              forall name | forall i :: 0 <= i < |reqs| ==> reqs[i].name != name ::
                (name in env.installed <==> name in old(env.installed))
                && (name in old(env.installed) ==> env.installed[name] == old(env.installed)[name])
    ensures AllCommitted(pathsets)
    ensures r.Installed? ==> last == null
    ensures last != null ==> r.Raised? && last.state == if EndingOf(endings, Deduplicated(reqs)[r.at].1.name) == Fails then RolledBack else Pending
  {
    if exists q :: q in reqs && q.name == "" { return AssertionFailed, [], null; }
    InstallAllMeans(reqs, env.installed);
    AllSucceed(reqs, endings);
    r, pathsets, last := InstallEach(env, Deduplicated(reqs), endings);
  }
}
