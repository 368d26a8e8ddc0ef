/**
 From links to the file that gets installed (index/package_finder.py): which
 links are candidates, which candidates are applicable, and which is best.
 Versions are ranks in their total order; what the packaging library decides
 about a version string or a specifier is a parameter.
 */
module Candidates {
  import opened Basics
  import opened Wheels
  import opened Sorting
  import Controls
  import Names
  import opened Excludes

  const WHEEL := ".whl"

  datatype Wheel = Wheel(name: string, version: string, build: BuildTag, fileTags: set<Tag>)

  /** A link as far as it is looked at; `wheel` is the parsed file name, None when it is no wheel's. */
  datatype Link = Link(url: string, ext: string, egg: bool, yanked: bool, macosx10: bool, isFile: bool,
                       wheel: Option<Wheel>, uploadTime: Option<int>, hashes: map<string, string>)

  datatype Candidate = Candidate(version: int, link: Link)

  /** The hex digests allowed for each algorithm. */
  type Hashes = map<string, seq<string>>

  datatype Rejection =
    | YankedLink | FormatUnsupported | FormatInvalid | DifferentProject | PlatformMismatch
    | UploadTimeMissing | UploadTooLate | RequiresPythonMismatch

  datatype Evaluation = Accepted(version: string) | Rejected(reason: Rejection)

  datatype Evaluator = Evaluator(
    name: string, formats: set<Controls.Format>, allowYanked: bool, tags: seq<Tag>, pyVersion: string,
    uploadedPriorTo: Option<int>,
    supportedExtensions: set<string>,
    fragmentVersion: Link -> string,                  // _extract_version_from_fragment
    splitPyTag: string -> Option<(string, string)>,   // a version with a -pyX.Y suffix
    supportsPython: Link -> bool,                     // _check_link_requires_python
    parseVersion: string -> Option<int>)              // None stands for InvalidVersion

  predicate IsWheel(link: Link) { link.ext == WHEEL }

  // ---------------------------------------------------------------- evaluate_link

  /** The checks on the file itself, skipped for a link with an egg fragment; a version if the name tells it. */
  function EvaluateFile(ev: Evaluator, link: Link): Evaluation {
    if link.ext == "" || link.ext !in ev.supportedExtensions then Rejected(FormatUnsupported)
    else if Controls.Binary !in ev.formats && IsWheel(link) then Rejected(FormatUnsupported)
    else if link.macosx10 && link.ext == ".zip" then Rejected(FormatUnsupported)
    else if !IsWheel(link) then Accepted("")
    else match link.wheel
      case None => Rejected(FormatInvalid)
      case Some(wheel) =>
        if wheel.name != ev.name then Rejected(DifferentProject)
        else if !Supported(wheel.fileTags, ev.tags) then Rejected(PlatformMismatch)
        else Accepted(wheel.version)
  }

  function EvaluateVersion(ev: Evaluator, link: Link, version: string): Evaluation {
    if version == "" then Rejected(FormatInvalid)
    else
      var split := (ev.splitPyTag)(version);
      if split.Some? && split.value.1 != ev.pyVersion then Rejected(PlatformMismatch)
      else if !(ev.supportsPython)(link) then Rejected(RequiresPythonMismatch)
      else Accepted(if split.Some? then split.value.0 else version)
  }

  function EvaluateLink(ev: Evaluator, link: Link): Evaluation {
    if link.yanked && !ev.allowYanked then Rejected(YankedLink)
    else
      var file := if link.egg then Accepted("") else EvaluateFile(ev, link);
      if file.Rejected? then file
      else if ev.uploadedPriorTo.Some? && !link.isFile && link.uploadTime.None? then Rejected(UploadTimeMissing)
      else if ev.uploadedPriorTo.Some? && !link.isFile && link.uploadTime.value >= ev.uploadedPriorTo.value then
        Rejected(UploadTooLate)
      else if Controls.Source !in ev.formats && !IsWheel(link) then Rejected(FormatUnsupported)
      else EvaluateVersion(ev, link, if file.version != "" then file.version else (ev.fragmentVersion)(link))
  }

  /** What a file without an egg fragment must be: of a supported kind, and a fitting wheel if it is one. */
  predicate FitFile(ev: Evaluator, link: Link) {
    && link.ext != "" && link.ext in ev.supportedExtensions
    && !(link.ext == ".zip" && link.macosx10)
    && (link.ext == ".whl" ==>
          && Controls.Binary in ev.formats && link.wheel.Some? && link.wheel.value.name == ev.name
          && exists t :: t in link.wheel.value.fileTags && t in ev.tags)
  }

  /** The version a link stands for: that of its wheel name, or else that of its fragment or file name. */
  function VersionOf(ev: Evaluator, link: Link): string {
    if !link.egg && link.ext == ".whl" && link.wheel.Some? && link.wheel.value.version != ""
    then link.wheel.value.version else (ev.fragmentVersion)(link)
  }

  /** Uploaded in time, as far as that is asked of it. */
  predicate InTime(ev: Evaluator, link: Link) {
    ev.uploadedPriorTo.Some? && !link.isFile ==>
      link.uploadTime.Some? && link.uploadTime.value < ev.uploadedPriorTo.value
  }

  /**
   A link is accepted exactly if nothing speaks against it: it is not yanked,
   or yanked files are allowed; the file is fit; it was uploaded in time; it is
   no source archive where these are not permitted; it has a version, for the
   right Python if it names one; and it supports the target Python.
   */
  lemma AcceptedExact(ev: Evaluator, link: Link)
    ensures var version := VersionOf(ev, link);
            EvaluateLink(ev, link).Accepted? <==>
              && (link.yanked ==> ev.allowYanked)
              && (!link.egg ==> FitFile(ev, link))
              && InTime(ev, link)
              && (link.ext != ".whl" ==> Controls.Source in ev.formats)
              && version != ""
              && ((ev.splitPyTag)(version).Some? ==> (ev.splitPyTag)(version).value.1 == ev.pyVersion)
              && (ev.supportsPython)(link)
    ensures var version := VersionOf(ev, link);
            EvaluateLink(ev, link).Accepted? ==>
              EvaluateLink(ev, link).version ==
                if (ev.splitPyTag)(version).Some? then (ev.splitPyTag)(version).value.0 else version
  {
  }

  /** The error for a missing upload time comes exactly where it would be compared. */
  lemma MissingTimeExact(ev: Evaluator, link: Link)
    ensures EvaluateLink(ev, link) == Rejected(UploadTimeMissing) <==>
              && (link.yanked ==> ev.allowYanked)
              && (!link.egg ==> FitFile(ev, link))
              && ev.uploadedPriorTo.Some? && !link.isFile && link.uploadTime.None?
  {
  }

  /**
   An accepted link is of an allowed format, except exactly for wheels with an
   egg fragment, which are never checked for binaries being permitted.
   */
  lemma AcceptedFormatExact(ev: Evaluator, link: Link)
    requires EvaluateLink(ev, link).Accepted?
    ensures (if IsWheel(link) then Controls.Binary in ev.formats else Controls.Source in ev.formats)
       <==> !(link.egg && IsWheel(link) && Controls.Binary !in ev.formats)
  {
  }

  // ---------------------------------------------------------------- the sort key

  datatype KeyResult = Success(key: Key) | InvalidWheelFilename | UnsupportedWheel

  datatype Preference = Preference(tags: seq<Tag>, preferBinary: bool, hashes: Option<Hashes>)

  predicate HashAllowed(link: Link, hashes: Option<Hashes>) {
    hashes.Some? && exists a :: a in link.hashes && a in hashes.value && link.hashes[a] in hashes.value[a]
  }

  /** A digest is allowed if it is listed for its algorithm, and that is the only way. */
  lemma DigestAllowed(link: Link, hashes: Option<Hashes>, algorithm: string)
    ensures (hashes.Some? && algorithm in link.hashes && algorithm in hashes.value
             && link.hashes[algorithm] in hashes.value[algorithm]) ==>
              HashAllowed(link, hashes)
    ensures hashes.None? || link.hashes == map[] ==> !HashAllowed(link, hashes)
    ensures hashes.Some? && (forall a :: a in link.hashes && a in hashes.value ==> link.hashes[a] !in hashes.value[a]) ==>
              !HashAllowed(link, hashes)
  {
  }

  function SortKey(p: Preference, c: Candidate): KeyResult {
    var allowed, yank := if HashAllowed(c.link, p.hashes) then 1 else 0, if c.link.yanked then -1 else 0;
    if !IsWheel(c.link) then Success(Key(allowed, yank, 0, c.version, -|p.tags|, NoBuild))
    else match c.link.wheel
      case None => InvalidWheelFilename
      case Some(wheel) =>
        match FindMostPreferredTag(wheel.fileTags, Preferences(p.tags))
        case None => UnsupportedWheel
        case Some(i) => Success(Key(allowed, yank, if p.preferBinary then 1 else 0, c.version, -(i as int), wheel.build))
  }

  /**
   The sort key of an accepted link raises exactly when the link is a wheel
   with an egg fragment whose name is no wheel's or whose tags do not fit.
   */
  lemma AcceptedKeyExact(ev: Evaluator, p: Preference, c: Candidate)
    requires EvaluateLink(ev, c.link).Accepted? && p.tags == ev.tags
    ensures !SortKey(p, c).Success? <==>
              && c.link.egg && IsWheel(c.link)
              && (c.link.wheel.None? || !Supported(c.link.wheel.value.fileTags, ev.tags))
  {
    if c.link.wheel.Some? {
      RaiseUnlessSupported(c.link.wheel.value.fileTags, ev.tags);
    }
  }

  /**
   Nothing about the file is looked at behind an egg fragment: a wheel passes
   whatever its name and tags, the supported tags and the permitted formats.
   */
  lemma EggWheelsPass(wheel: Option<Wheel>, tags: seq<Tag>, formats: set<Controls.Format>)
    ensures exists ev, link :: EvaluateLink(ev, link).Accepted? && ev.tags == tags && ev.formats == formats
                               && link.wheel == wheel && link.egg && IsWheel(link)
  {
    var link := Link("url", WHEEL, true, false, false, false, wheel, None, map[]);
    var ev := Evaluator("name", formats, false, tags, "3", None, {}, _ => "1.0", _ => None, _ => true, _ => Some(1));
    assert EvaluateLink(ev, link).Accepted?;
  }

  /** An accepted candidate that cannot be sorted, of a format that is not permitted. */
  lemma AcceptedAndUnsortable(p: Preference)
    ensures exists ev, c: Candidate :: EvaluateLink(ev, c.link).Accepted? && ev.tags == p.tags
                            && Controls.Binary !in ev.formats && IsWheel(c.link) && !SortKey(p, c).Success?
  {
    EggWheelsPass(None, p.tags, {});
    var ev, link :| EvaluateLink(ev, link).Accepted? && ev.tags == p.tags && ev.formats == {}
                    && link.wheel == None && link.egg && IsWheel(link);
    var c := Candidate(1, link);
    assert EvaluateLink(ev, c.link).Accepted? && !SortKey(p, c).Success?;
  }

  /** A wheel beats the source archive of its version. */
  lemma WheelsBeforeSource(p: Preference, wheel: Candidate, source: Candidate)
    requires SortKey(p, wheel).Success? && SortKey(p, source).Success?
    requires IsWheel(wheel.link) && !IsWheel(source.link) && wheel.version == source.version
    requires HashAllowed(wheel.link, p.hashes) == HashAllowed(source.link, p.hashes)
    requires wheel.link.yanked == source.link.yanked
    ensures Less(SortKey(p, source).key, SortKey(p, wheel).key)
  {
    var priority := Preferences(p.tags);
    var i := FindMostPreferredTag(wheel.link.wheel.value.fileTags, priority).value;
    var t :| t in wheel.link.wheel.value.fileTags && t in priority && priority[t] == i;
  }

  /** Nothing that the key puts before the tags sets the candidates apart. */
  predicate SameBeforeTags(p: Preference, a: Candidate, b: Candidate) {
    && a.version == b.version && a.link.yanked == b.link.yanked
    && HashAllowed(a.link, p.hashes) == HashAllowed(b.link, p.hashes)
  }

  /** Of two wheels of a version the one with the better tag wins, whatever their builds. */
  lemma BetterTagWins(p: Preference, better: Candidate, worse: Candidate)
    requires SortKey(p, better).Success? && SortKey(p, worse).Success?
    requires IsWheel(better.link) && IsWheel(worse.link) && NoDuplicates(p.tags)
    ensures var i := SupportIndexMin(better.link.wheel.value.fileTags, p.tags);
            var j := SupportIndexMin(worse.link.wheel.value.fileTags, p.tags);
            && i.Some? && j.Some?
            && (SameBeforeTags(p, better, worse) && i.value < j.value ==>
                  Less(SortKey(p, worse).key, SortKey(p, better).key))
  {
    ScanIsLookup(better.link.wheel.value.fileTags, p.tags);
    ScanIsLookup(worse.link.wheel.value.fileTags, p.tags);
  }

  /** An allowed digest outweighs everything else. */
  lemma AllowedHashWins(p: Preference, better: Candidate, worse: Candidate)
    requires SortKey(p, better).Success? && SortKey(p, worse).Success?
    requires HashAllowed(better.link, p.hashes) && !HashAllowed(worse.link, p.hashes)
    ensures Less(SortKey(p, worse).key, SortKey(p, better).key)
  {
  }

  predicate SameHash(p: Preference, a: Candidate, b: Candidate) {
    HashAllowed(a.link, p.hashes) == HashAllowed(b.link, p.hashes)
  }

  /** A yanked file loses to one that is not, whatever their versions. */
  lemma YankedLoses(p: Preference, better: Candidate, worse: Candidate)
    requires SortKey(p, better).Success? && SortKey(p, worse).Success?
    requires SameHash(p, better, worse) && !better.link.yanked && worse.link.yanked
    ensures Less(SortKey(p, worse).key, SortKey(p, better).key)
  {
  }

  /** Neither hash nor yanking nor a preference for binaries sets the candidates apart. */
  predicate SameRank(p: Preference, a: Candidate, b: Candidate) {
    && SameHash(p, a, b) && a.link.yanked == b.link.yanked
    && (p.preferBinary ==> (a.link.ext == ".whl" <==> b.link.ext == ".whl"))
  }

  /** Then the newer version wins, whatever tags and builds, and a wheel or not. */
  lemma NewerWins(p: Preference, better: Candidate, worse: Candidate)
    requires SortKey(p, better).Success? && SortKey(p, worse).Success?
    requires SameRank(p, better, worse) && worse.version < better.version
    ensures Less(SortKey(p, worse).key, SortKey(p, better).key)
  {
  }

  /** Where binaries are preferred, a wheel wins over source archives of any version. */
  lemma PreferredBinaryWins(p: Preference, wheel: Candidate, source: Candidate)
    requires SortKey(p, wheel).Success? && SortKey(p, source).Success? && p.preferBinary
    requires wheel.link.ext == ".whl" && source.link.ext != ".whl"
    requires SameHash(p, wheel, source) && wheel.link.yanked == source.link.yanked
    ensures Less(SortKey(p, source).key, SortKey(p, wheel).key)
  {
  }

  /** With the same tags the greater build wins: any over none, then by number, then by suffix. */
  lemma GreaterBuildWins(p: Preference, better: Candidate, worse: Candidate)
    requires SortKey(p, better).Success? && SortKey(p, worse).Success?
    requires IsWheel(better.link) && IsWheel(worse.link) && SameBeforeTags(p, better, worse)
    requires better.link.wheel.value.fileTags == worse.link.wheel.value.fileTags
    ensures var b, w := better.link.wheel.value.build, worse.link.wheel.value.build;
            (b.Build? && (w.NoBuild? || w.number < b.number
                          || (w.number == b.number && w.suffix != b.suffix && Names.Leq(w.suffix, b.suffix)))) ==>
              Less(SortKey(p, worse).key, SortKey(p, better).key)
  {
  }

  // ---------------------------------------------------------------- collecting candidates

  predicate FirstOfUrl(links: seq<Link>, k: nat)
    requires k < |links|
  {
    forall j :: 0 <= j < k ==> links[j].url != links[k].url
  }

  /** The first link of each URL, for which `egg` is as asked, in order. */
  function FirstLinks(links: seq<Link>, egg: bool): (r: seq<Link>)
    ensures forall l :: l in r ==> l in links && l.egg == egg
  {
    if links == [] then []
    else
      var n := |links| - 1;
      FirstLinks(links[..n], egg) + (if FirstOfUrl(links, n) && links[n].egg == egg then [links[n]] else [])
  }

  lemma FirstLinksStep(links: seq<Link>, k: nat, egg: bool)
    requires k < |links|
    ensures FirstLinks(links[..k + 1], egg)
         == FirstLinks(links[..k], egg) + (if FirstOfUrl(links, k) && links[k].egg == egg then [links[k]] else [])
  {
    assert links[..k + 1][..k] == links[..k];
    assert FirstOfUrl(links[..k + 1], k) == FirstOfUrl(links, k);
  }

  function Urls(links: seq<Link>): set<string> { set l | l in links :: l.url }

  lemma UrlsStep(links: seq<Link>, k: nat)
    requires k < |links|
    ensures Urls(links[..k + 1]) == Urls(links[..k]) + {links[k].url}
    ensures links[k].url !in Urls(links[..k]) <==> FirstOfUrl(links, k)
  {
    assert links[..k + 1] == links[..k] + [links[k]];
    if links[k].url !in Urls(links[..k]) {
      forall j | 0 <= j < k ensures links[j].url != links[k].url { assert links[j] in links[..k]; }
    }
  }

  /** The two lists and the set after the first `k` links. */
  ghost predicate Sifting(links: seq<Link>, k: nat, noEggs: seq<Link>, eggs: seq<Link>, seen: set<string>)
    requires k <= |links|
  {
    && noEggs == FirstLinks(links[..k], false) && eggs == FirstLinks(links[..k], true)
    && seen == Urls(links[..k])
  }

  lemma SiftMore(links: seq<Link>, k: nat, noEggs: seq<Link>, eggs: seq<Link>, seen: set<string>)
    requires k < |links| && Sifting(links, k, noEggs, eggs, seen)
    ensures var link := links[k];
            if link.url in seen then Sifting(links, k + 1, noEggs, eggs, seen)
            else if link.egg then Sifting(links, k + 1, noEggs, eggs + [link], seen + {link.url})
            else Sifting(links, k + 1, noEggs + [link], eggs, seen + {link.url})
  {
    UrlsStep(links, k);
    FirstLinksStep(links, k, false);
    FirstLinksStep(links, k, true);
  }

  /** Without duplicates, links without an egg fragment before those with one. */
  method SortLinks(links: seq<Link>) returns (r: seq<Link>)
    ensures r == FirstLinks(links, false) + FirstLinks(links, true)
  {
    var eggs, noEggs: seq<Link>, seen: set<string> := [], [], {};
    for k := 0 to |links|
      invariant Sifting(links, k, noEggs, eggs, seen)
    {
      SiftMore(links, k, noEggs, eggs, seen);
      var link := links[k];
      if link.url !in seen {
        seen := seen + {link.url};
        if link.egg { eggs := eggs + [link]; } else { noEggs := noEggs + [link]; }
      }
    }
    assert links[..|links|] == links;
    r := noEggs + eggs;
  }

  /** Nothing is lost but duplicates, and nothing is made up. */
  lemma {:induction false} FirstLinksKeepUrls(links: seq<Link>, l: Link)
    requires l in links
    ensures exists l': Link :: l' in FirstLinks(links, l'.egg) && l'.url == l.url
  {
    var n := |links| - 1;
    if l in links[..n] {
      FirstLinksKeepUrls(links[..n], l);
      var l': Link :| l' in FirstLinks(links[..n], l'.egg) && l'.url == l.url;
      assert l' in FirstLinks(links, l'.egg);
    } else {
      assert l == links[n];
      if FirstOfUrl(links, n) {
        assert l in FirstLinks(links, l.egg);
      } else {
        var j :| 0 <= j < n && links[j].url == l.url;
        assert links[j] == links[..n][j];
        FirstLinksKeepUrls(links[..n], links[j]);
        var l': Link :| l' in FirstLinks(links[..n], l'.egg) && l'.url == l.url;
        assert l' in FirstLinks(links, l'.egg);
      }
    }
  }

  /** The places of the links taken, in order. */
  function FirstIndices(links: seq<Link>, egg: bool): (r: seq<nat>)
    ensures forall k :: k in r <==>
              && 0 <= k < |links| && links[k].egg == egg
              && forall j :: 0 <= j < k ==> links[j].url != links[k].url
    ensures forall i, j :: 0 <= i < j < |r| ==> r[i] < r[j]
  {
    if links == [] then []
    else
      var n := |links| - 1;
      var before := FirstIndices(links[..n], egg);
      assert forall k :: 0 <= k < n ==> FirstOfUrl(links[..n], k) == FirstOfUrl(links, k);
      assert forall i :: 0 <= i < |before| ==> before[i] in before;
      if FirstOfUrl(links, n) && links[n].egg == egg then before + [n] else before
  }

  ghost predicate Picked(links: seq<Link>, indices: seq<nat>, r: seq<Link>) {
    |r| == |indices| && forall i :: 0 <= i < |r| ==> indices[i] < |links| && r[i] == links[indices[i]]
  }

  lemma PickedFurther(links: seq<Link>, indices: seq<nat>, r: seq<Link>, link: Link)
    requires Picked(links, indices, r)
    ensures Picked(links + [link], indices, r)
    ensures Picked(links + [link], indices + [|links|], r + [link])
  {
    assert forall i :: 0 <= i < |indices| ==> (links + [link])[indices[i]] == links[indices[i]];
  }

  /** Exactly the first link of every URL is taken, in order. */
  lemma {:induction false} FirstLinksExact(links: seq<Link>, egg: bool)
    ensures Picked(links, FirstIndices(links, egg), FirstLinks(links, egg))
  {
    if links == [] {
    } else {
      var before, link := links[..|links| - 1], links[|links| - 1];
      FirstLinksExact(before, egg);
      PickedFurther(before, FirstIndices(before, egg), FirstLinks(before, egg), link);
      assert links == before + [link];
    }
  }

  /** None stands for the InstallationError of an index without upload times. */
  function Collected(ev: Evaluator, links: seq<Link>): (r: Option<seq<Candidate>>)
    ensures r.Some? ==> forall c :: c in r.value ==> c.link in links && EvaluateLink(ev, c.link).Accepted?
  {
    if links == [] then Some([])
    else
      var n := |links| - 1;
      var before, e := Collected(ev, links[..n]), EvaluateLink(ev, links[n]);
      if before.None? || e == Rejected(UploadTimeMissing) then None
      else if e.Rejected? || (ev.parseVersion)(e.version).None? then before
      else Some(before.value + [Candidate((ev.parseVersion)(e.version).value, links[n])])
  }

  lemma CollectedStep(ev: Evaluator, links: seq<Link>, k: nat)
    requires k < |links| && Collected(ev, links[..k]).Some?
    ensures var before, e := Collected(ev, links[..k]).value, EvaluateLink(ev, links[k]);
            Collected(ev, links[..k + 1]) ==
            if e == Rejected(UploadTimeMissing) then None
            else if e.Rejected? || (ev.parseVersion)(e.version).None? then Some(before)
            else Some(before + [Candidate((ev.parseVersion)(e.version).value, links[k])])
  {
    assert links[..k + 1][..k] == links[..k];
  }

  /** An accepted link with a version that can be parsed. */
  predicate Usable(ev: Evaluator, link: Link) {
    EvaluateLink(ev, link).Accepted? && (ev.parseVersion)(EvaluateLink(ev, link).version).Some?
  }

  /** The indices of the usable links, in order. */
  function UsableIndices(ev: Evaluator, links: seq<Link>): (r: seq<nat>)
    ensures forall k :: k in r <==> 0 <= k < |links| && Usable(ev, links[k])
    ensures forall i, j :: 0 <= i < j < |r| ==> r[i] < r[j]
  {
    if links == [] then []
    else
      var n := |links| - 1;
      var before := UsableIndices(ev, links[..n]);
      assert forall k :: 0 <= k < n ==> links[..n][k] == links[k];
      assert forall i :: 0 <= i < |before| ==> before[i] in before;
      if Usable(ev, links[n]) then before + [n] else before
  }

  function CandidateOf(ev: Evaluator, link: Link): Candidate
    requires Usable(ev, link)
  {
    Candidate((ev.parseVersion)(EvaluateLink(ev, link).version).value, link)
  }

  lemma {:induction false} CollectedNone(ev: Evaluator, links: seq<Link>)
    ensures Collected(ev, links).None? <==> exists l :: l in links && EvaluateLink(ev, l) == Rejected(UploadTimeMissing)
  {
    if links == [] {
    } else {
      var n := |links| - 1;
      CollectedNone(ev, links[..n]);
      assert links == links[..n] + [links[n]];
    }
  }

  /** The candidates of the links at these places, one for one. */
  ghost predicate Listed(ev: Evaluator, links: seq<Link>, indices: seq<nat>, candidates: seq<Candidate>) {
    && |candidates| == |indices|
    && forall i :: 0 <= i < |indices| ==>
         indices[i] < |links| && Usable(ev, links[indices[i]]) && candidates[i] == CandidateOf(ev, links[indices[i]])
  }

  lemma ListedFurther(ev: Evaluator, links: seq<Link>, indices: seq<nat>, candidates: seq<Candidate>, link: Link)
    requires Listed(ev, links, indices, candidates)
    ensures Listed(ev, links + [link], indices, candidates)
    ensures Usable(ev, link) ==>
              Listed(ev, links + [link], indices + [|links|], candidates + [CandidateOf(ev, link)])
  {
    forall i | 0 <= i < |indices| ensures (links + [link])[indices[i]] == links[indices[i]] {}
  }

  /**
   Unless an upload time is missing, collecting gives a candidate for every
   usable link, in order, and no others.
   */
  lemma {:induction false} CollectedExact(ev: Evaluator, links: seq<Link>)
    requires Collected(ev, links).Some?
    ensures Listed(ev, links, UsableIndices(ev, links), Collected(ev, links).value)
  {
    if links == [] {
    } else {
      var n := |links| - 1;
      var before, link := links[..n], links[n];
      CollectedExact(ev, before);
      ListedFurther(ev, before, UsableIndices(ev, before), Collected(ev, before).value, link);
      assert links == before + [link];
    }
  }

  method EvaluateLinks(ev: Evaluator, links: seq<Link>) returns (r: Option<seq<Candidate>>)
    ensures r == Collected(ev, FirstLinks(links, false) + FirstLinks(links, true))
  {
    var sorted := SortLinks(links);
    var candidates: seq<Candidate> := [];
    for k := 0 to |sorted|
      invariant Collected(ev, sorted[..k]) == Some(candidates)
    {
      CollectedStep(ev, sorted, k);
      var e := EvaluateLink(ev, sorted[k]);
      if e == Rejected(UploadTimeMissing) {
        NoneStaysNone(ev, sorted, k + 1);
        return None;
      }
      if e.Accepted? {
        var version := (ev.parseVersion)(e.version);
        if version.Some? { candidates := candidates + [Candidate(version.value, sorted[k])]; }
      }
    }
    assert sorted[..|sorted|] == sorted;
    r := Some(candidates);
  }

  lemma {:induction false} NoneStaysNone(ev: Evaluator, links: seq<Link>, k: nat)
    requires k <= |links| && Collected(ev, links[..k]).None?
    ensures Collected(ev, links).None?
    decreases |links|
  {
    if k < |links| {
      assert links[..|links| - 1][..k] == links[..k];
      NoneStaysNone(ev, links[..|links| - 1], k);
    } else {
      assert links[..k] == links;
    }
  }

  // ---------------------------------------------------------------- hashes

  function Keep(keep: Candidate -> bool, s: seq<Candidate>): (r: seq<Candidate>)
    ensures forall c :: c in r <==> c in s && keep(c)
    ensures |r| <= |s|
  {
    if s == [] then []
    else
      var n := |s| - 1;
      if keep(s[n]) then Keep(keep, s[..n]) + [s[n]] else Keep(keep, s[..n])
  }

  predicate AnyAllowed(candidates: seq<Candidate>, hashes: Option<Hashes>) {
    exists c :: c in candidates && HashAllowed(c.link, hashes)
  }

  /** A digest that is not allowed counts against a candidate only beside one that is allowed. */
  predicate Unhindered(candidates: seq<Candidate>, hashes: Option<Hashes>, c: Candidate) {
    AnyAllowed(candidates, hashes) ==> c.link.hashes == map[] || HashAllowed(c.link, hashes)
  }

  method FilterUnallowedHashes(candidates: seq<Candidate>, hashes: Option<Hashes>) returns (r: seq<Candidate>)
    ensures r == Keep(c => Unhindered(candidates, hashes, c), candidates)
    ensures (forall c :: c in candidates ==> !HashAllowed(c.link, hashes)) ==> r == candidates
    ensures (exists c :: c in candidates && HashAllowed(c.link, hashes)) ==>
              forall c :: c in r <==> c in candidates && (c.link.hashes == map[] || HashAllowed(c.link, hashes))
  {
    var keep := c => Unhindered(candidates, hashes, c);
    if hashes.None? || hashes.value == map[] {
      assert !AnyAllowed(candidates, hashes);
      KeepAll(keep, candidates);
      return candidates;
    }
    var fits := (c: Candidate) => c.link.hashes == map[] || HashAllowed(c.link, hashes);
    var matchesOrNoDigest, matchCount := [], 0;
    for k := 0 to |candidates|
      invariant matchesOrNoDigest == Keep(fits, candidates[..k])
      invariant matchCount > 0 <==> AnyAllowed(candidates[..k], hashes)
      invariant matchCount >= 0
    {
      assert candidates[..k + 1] == candidates[..k] + [candidates[k]];
      if candidates[k].link.hashes == map[] {
      } else if HashAllowed(candidates[k].link, hashes) {
        matchCount := matchCount + 1;
      } else {
        continue;
      }
      matchesOrNoDigest := matchesOrNoDigest + [candidates[k]];
    }
    assert candidates[..|candidates|] == candidates;
    if matchCount > 0 {
      KeepSame(keep, fits, candidates);
      r := matchesOrNoDigest;
    } else {
      KeepAll(keep, candidates);
      r := candidates;
    }
  }

  lemma {:induction false} KeepAll(keep: Candidate -> bool, s: seq<Candidate>)
    requires forall c :: c in s ==> keep(c)
    ensures Keep(keep, s) == s
  {
    if s == [] {
    } else {
      var n := |s| - 1;
      assert s == s[..n] + [s[n]];
      assert s[n] in s && keep(s[n]);
      forall c | c in s[..n] ensures keep(c) { assert c in s; }
      KeepAll(keep, s[..n]);
    }
  }

  lemma {:induction false} KeepSame(p: Candidate -> bool, q: Candidate -> bool, s: seq<Candidate>)
    requires forall c :: c in s ==> p(c) == q(c)
    ensures Keep(p, s) == Keep(q, s)
  {
    if s == [] {
    } else {
      KeepSame(p, q, s[..|s| - 1]);
    }
  }

  lemma {:induction false} KeepTwice(p: Candidate -> bool, q: Candidate -> bool, both: Candidate -> bool, s: seq<Candidate>)
    requires forall c :: both(c) <==> p(c) && q(c)
    ensures Keep(q, Keep(p, s)) == Keep(both, s)
  {
    if s == [] {
    } else {
      var n := |s| - 1;
      KeepTwice(p, q, both, s[..n]);
      if p(s[n]) { KeepOneMore(q, Keep(p, s[..n]), s[n]); }
    }
  }

  lemma KeepOneMore(q: Candidate -> bool, s: seq<Candidate>, c: Candidate)
    ensures Keep(q, s + [c]) == if q(c) then Keep(q, s) + [c] else Keep(q, s)
  {
    assert (s + [c])[..|s|] == s;
  }

  // ---------------------------------------------------------------- the best candidate

  /** Index `k` holds the first of the most preferred candidates among those kept. */
  ghost predicate IsBest(s: seq<Candidate>, keep: Candidate -> bool, key: Candidate -> Key, k: int) {
    && 0 <= k < |s| && keep(s[k])
    && (forall j :: 0 <= j < k && keep(s[j]) ==> Less(key(s[j]), key(s[k])))
    && (forall j :: k < j < |s| && keep(s[j]) ==> !Less(key(s[k]), key(s[j])))
  }

  lemma LastIsBest(a: seq<Candidate>, c: Candidate, keep: Candidate -> bool, key: Candidate -> Key)
    requires keep(c) && IsFirstMax(Keep(keep, a) + [c], key, |Keep(keep, a)|)
    ensures IsBest(a + [c], keep, key, |a|)
  {
    var before, kept := Keep(keep, a), Keep(keep, a) + [c];
    assert (a + [c])[|a|] == c;
    forall j | 0 <= j < |a| && keep(a[j]) ensures Less(key(a[j]), key(c)) {
      assert a[j] in before;
      var m :| 0 <= m < |before| && before[m] == a[j];
      assert kept[m] == a[j];
    }
  }

  lemma BestStays(a: seq<Candidate>, c: Candidate, keep: Candidate -> bool, key: Candidate -> Key, k: nat)
    requires IsBest(a, keep, key, k) && (keep(c) ==> !Less(key(a[k]), key(c)))
    ensures IsBest(a + [c], keep, key, k)
  {
  }

  lemma FirstMaxOfPrefix(a: seq<Candidate>, c: Candidate, key: Candidate -> Key, i: nat)
    requires IsFirstMax(a + [c], key, i) && i < |a|
    ensures IsFirstMax(a, key, i) && !Less(key(a[i]), key(c))
  {
    assert (a + [c])[|a|] == c;
    forall j | 0 <= j < |a| ensures (a + [c])[j] == a[j] {}
  }

  /** The first maximum of what is kept is the best of the whole list. */
  lemma {:induction false} FirstMaxIsBest(s: seq<Candidate>, keep: Candidate -> bool, key: Candidate -> Key, i: nat)
    returns (k: nat)
    requires IsFirstMax(Keep(keep, s), key, i)
    ensures IsBest(s, keep, key, k) && s[k] == Keep(keep, s)[i]
  {
    var n := |s| - 1;
    var a, c := s[..n], s[n];
    assert s == a + [c];
    if !keep(c) {
      k := FirstMaxIsBest(a, keep, key, i);
      BestStays(a, c, keep, key, k);
    } else if i == |Keep(keep, a)| {
      LastIsBest(a, c, keep, key);
      k := n;
    } else {
      FirstMaxOfPrefix(Keep(keep, a), c, key, i);
      k := FirstMaxIsBest(a, keep, key, i);
      BestStays(a, c, keep, key, k);
    }
  }

  /** What a search knows: the supported tags and preferences, and what the specifier lets through. */
  datatype Search = Search(preference: Preference, name: string, release: Option<Control>,
                           specifier: (Controls.Verdict, seq<Candidate>) -> Candidate -> bool)

  datatype Best = Best(all: seq<Candidate>, applicable: seq<Candidate>, best: Option<Candidate>)

  function PrereleaseVerdict(search: Search): Controls.Verdict {
    if search.release.None? then Controls.Default
    else Controls.AllowsPrereleases(search.release.value, Names.Canonicalize(search.name))
  }

  function Selected(search: Search, all: seq<Candidate>): Candidate -> bool {
    (search.specifier)(PrereleaseVerdict(search), all)
  }

  /** Past the specifier and the hash filter. */
  predicate Eligible(search: Search, all: seq<Candidate>, c: Candidate) {
    && Selected(search, all)(c)
    && Unhindered(Keep(Selected(search, all), all), search.preference.hashes, c)
  }

  /**
   The specifier is asked with the verdict of release control, if there is one,
   for the canonical name; of the candidates it lets through only an allowed
   digest takes others out, and only those with digests of their own.
   */
  lemma EligibleMeans(search: Search, all: seq<Candidate>, c: Candidate)
    ensures var hashes := search.preference.hashes;
            var verdict := match search.release
              case None => Controls.Default
              case Some(control) => Controls.AllowsPrereleases(control, Names.Canonicalize(search.name));
            var passes := (search.specifier)(verdict, all);
            Eligible(search, all, c) <==>
              && passes(c)
              && (c.link.hashes == map[] || HashAllowed(c.link, hashes)
                  || !exists d :: d in all && passes(d) && HashAllowed(d.link, hashes))
  {
    var kept := Keep(Selected(search, all), all);
    assert forall d :: d in kept <==> d in all && Selected(search, all)(d);
  }

  /** The key of a candidate that has one. */
  function KeyOf(p: Preference, c: Candidate): Key {
    if SortKey(p, c).Success? then SortKey(p, c).key else Key(0, 0, 0, 0, 0, NoBuild)
  }

  /** No eligible candidate has a better hash, is less yanked, more of a binary, or newer than the best, in this order. */
  lemma BestRanks(search: Search, all: seq<Candidate>, k: nat, c: Candidate)
    requires IsBest(all, c => Eligible(search, all, c), c => KeyOf(search.preference, c), k)
    requires c in all && Eligible(search, all, c)
    requires SortKey(search.preference, c).Success? && SortKey(search.preference, all[k]).Success?
    ensures var p, best := search.preference, all[k];
            && (HashAllowed(c.link, p.hashes) ==> HashAllowed(best.link, p.hashes))
            && (SameHash(p, c, best) && best.link.yanked ==> c.link.yanked)
            && (SameHash(p, c, best) && c.link.yanked == best.link.yanked && p.preferBinary && c.link.ext == ".whl" ==>
                  best.link.ext == ".whl")
            && (SameRank(p, c, best) ==> c.version <= best.version)
  {
    var p, best := search.preference, all[k];
    var j :| 0 <= j < |all| && all[j] == c;
    LessIsOrder(KeyOf(p, best), KeyOf(p, c), KeyOf(p, c));
  }

  /**
   None stands for the exception of a candidate that cannot be sorted.
   Otherwise the result passes its own assertions, and its best candidate is
   the first eligible one, in the order of `all`, with the greatest key.
   */
  method ComputeBestCandidate(search: Search, all: seq<Candidate>) returns (r: Option<Best>)
    ensures r.None? <==> exists c :: c in all && Eligible(search, all, c) && !SortKey(search.preference, c).Success?
    ensures r.Some? ==> r.value.all == all
    ensures r.Some? ==> forall c :: c in r.value.applicable <==> c in all && Eligible(search, all, c)
    ensures r.Some? && search.release.None? ==>
              forall c :: c in r.value.applicable ==> (search.specifier)(Controls.Default, all)(c)
    ensures r.Some? && search.release.Some? ==>
              var verdict := Controls.AllowsPrereleases(search.release.value, Names.Canonicalize(search.name));
              forall c :: c in r.value.applicable ==> (search.specifier)(verdict, all)(c)
    ensures r.Some? ==> Ascending(r.value.applicable, c => KeyOf(search.preference, c))
    ensures r.Some? ==> (r.value.best.None? <==> r.value.applicable == [])
    ensures r.Some? && r.value.best.Some? ==>
              && r.value.best.value in r.value.applicable
              && exists k :: IsBest(all, c => Eligible(search, all, c), c => KeyOf(search.preference, c), k)
                             && all[k] == r.value.best.value
    ensures r.Some? && r.value.best.Some? ==>
              forall c :: c in r.value.applicable && SameRank(search.preference, c, r.value.best.value) ==>
                c.version <= r.value.best.value.version
  {
    var p, select := search.preference, Selected(search, all);
    var eligible := c => Eligible(search, all, c);
    var key := c => KeyOf(p, c);
    var filtered := FilterUnallowedHashes(Keep(select, all), p.hashes);
    KeepTwice(select, c => Unhindered(Keep(select, all), p.hashes, c), eligible, all);
    assert filtered == Keep(eligible, all);
    if exists c :: c in filtered && !SortKey(p, c).Success? { return None; }
    var applicable := StableSort(filtered, key);
    if applicable == [] {
      assert forall c :: c in filtered ==> c in applicable;
      return Some(Best(all, applicable, None));
    }
    StableSortIsStable(filtered, key);
    MaxIndexIsFirstMax(applicable, key);
    MaxIndexIsFirstMax(filtered, key);
    StableSortKeepsFirstMax(filtered, applicable, key, MaxIndex(filtered, key), MaxIndex(applicable, key));
    ghost var k := FirstMaxIsBest(all, eligible, key, MaxIndex(filtered, key));
    forall c | c in applicable && SameRank(p, c, all[k]) ensures c.version <= all[k].version {
      BestRanks(search, all, k, c);
    }
    r := Some(Best(all, applicable, Some(applicable[MaxIndex(applicable, key)])));
  }

  /** If any candidate the specifier lets through has an allowed hash, the best one does. */
  lemma BestHasAllowedHash(search: Search, all: seq<Candidate>, k: nat, c: Candidate)
    requires IsBest(all, c => Eligible(search, all, c), c => KeyOf(search.preference, c), k)
    requires c in all && Selected(search, all)(c) && HashAllowed(c.link, search.preference.hashes)
    requires SortKey(search.preference, c).Success? && SortKey(search.preference, all[k]).Success?
    ensures HashAllowed(all[k].link, search.preference.hashes)
  {
    var j :| 0 <= j < |all| && all[j] == c;
    assert Eligible(search, all, c);
  }

  /** Local files come before pages, so a page is chosen only if it is really preferred. */
  lemma FilesWinTies(search: Search, files: seq<Candidate>, pages: seq<Candidate>, k: nat, j: nat)
    requires IsBest(files + pages, c => Eligible(search, files + pages, c), c => KeyOf(search.preference, c), k)
    requires j < |files| && Eligible(search, files + pages, files[j])
    requires |files| <= k
    ensures Less(KeyOf(search.preference, files[j]), KeyOf(search.preference, (files + pages)[k]))
  {
    assert (files + pages)[j] == files[j];
  }

  /** Candidates collected by an evaluator of the same tags sort, but for unfit wheels with an egg fragment. */
  lemma CollectedSort(ev: Evaluator, search: Search, all: seq<Candidate>)
    requires search.preference.tags == ev.tags
    requires forall c :: c in all ==> EvaluateLink(ev, c.link).Accepted?
    ensures (exists c :: c in all && Eligible(search, all, c) && !SortKey(search.preference, c).Success?)
       <==> exists c :: c in all && Eligible(search, all, c) && c.link.egg && IsWheel(c.link)
                        && (c.link.wheel.None? || !Supported(c.link.wheel.value.fileTags, ev.tags))
  {
    forall c | c in all
      ensures !SortKey(search.preference, c).Success? <==>
                c.link.egg && IsWheel(c.link) && (c.link.wheel.None? || !Supported(c.link.wheel.value.fileTags, ev.tags))
    {
      AcceptedKeyExact(ev, search.preference, c);
    }
  }

  function Sifted(links: seq<Link>): seq<Link> { FirstLinks(links, false) + FirstLinks(links, true) }

  /** The candidates of each page in turn. */
  function OnPages(ev: Evaluator, pages: seq<seq<Link>>): (r: Option<seq<Candidate>>)
    ensures r.Some? ==> forall c :: c in r.value ==> EvaluateLink(ev, c.link).Accepted?
  {
    if pages == [] then Some([])
    else
      var n := |pages| - 1;
      var before, page := OnPages(ev, pages[..n]), Collected(ev, Sifted(pages[n]));
      if before.None? || page.None? then None else Some(before.value + page.value)
  }

  lemma {:induction false} OnPagesNone(ev: Evaluator, pages: seq<seq<Link>>, k: nat)
    requires k <= |pages| && OnPages(ev, pages[..k]).None?
    ensures OnPages(ev, pages).None?
    decreases |pages|
  {
    if k < |pages| {
      assert pages[..|pages| - 1][..k] == pages[..k];
      OnPagesNone(ev, pages[..|pages| - 1], k);
    } else {
      assert pages[..k] == pages;
    }
  }

  /** Pages are taken in order, each with its links without an egg fragment first. */
  lemma OneMorePage(ev: Evaluator, pages: seq<seq<Link>>, page: seq<Link>)
    ensures var before, r := OnPages(ev, pages), OnPages(ev, pages + [page]);
            var here := Collected(ev, FirstLinks(page, false) + FirstLinks(page, true));
            r == if before.None? || here.None? then None else Some(before.value + here.value)
  {
    assert (pages + [page])[..|pages|] == pages;
  }

  /** The link a project is locked to is its only candidate, and it must be one. */
  function Locked(ev: Evaluator, link: Link): Option<seq<Candidate>> {
    if Usable(ev, link) then Some([CandidateOf(ev, link)]) else None
  }

  /**
   Pages are read first, but local files are listed before them; neither is
   looked at for a project that is locked to a link.
   */
  method FindAllCandidates(ev: Evaluator, locked: Option<Link>, files: seq<Link>, pages: seq<seq<Link>>)
    returns (r: Option<seq<Candidate>>)
    ensures locked.Some? ==> r == Locked(ev, locked.value)
    ensures locked.Some? ==>
              var e := EvaluateLink(ev, locked.value);
              if e.Accepted? && (ev.parseVersion)(e.version).Some?
              then r == Some([Candidate((ev.parseVersion)(e.version).value, locked.value)]) else r == None
    ensures locked.None? ==>
              var local, remote := Collected(ev, Sifted(files)), OnPages(ev, pages);
              r == if local.None? || remote.None? then None else Some(local.value + remote.value)
    ensures r.Some? ==> forall c :: c in r.value ==> EvaluateLink(ev, c.link).Accepted?
  {
    if locked.Some? {
      var e := EvaluateLink(ev, locked.value);
      if e.Rejected? { return None; }
      var version := (ev.parseVersion)(e.version);
      if version.None? { return None; }
      return Some([Candidate(version.value, locked.value)]);
    }
    var pageCandidates: seq<Candidate> := [];
    for k := 0 to |pages|
      invariant OnPages(ev, pages[..k]) == Some(pageCandidates)
    {
      assert pages[..k + 1][..k] == pages[..k];
      var page := EvaluateLinks(ev, pages[k]);
      if page.None? {
        OnPagesNone(ev, pages, k + 1);
        return None;
      }
      pageCandidates := pageCandidates + page.value;
    }
    assert pages[..|pages|] == pages;
    var fileCandidates := EvaluateLinks(ev, files);
    if fileCandidates.None? { return None; }
    r := Some(fileCandidates.value + pageCandidates);
  }
}
