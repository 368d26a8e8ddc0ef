# kpip in Dafny

A model of the parts of kpip that keep state, caches or protocols, and proofs
of what they are for.  `dafny verify dfyconfig.toml` checks all of it.

- **Intervals, LazyWheel**: the file-like object that fills in a sparse local
  copy of a remote wheel by range requests.  Its lists of recorded intervals,
  the backing file and the cursor are changed in place; every contact with the
  server may fail, also in the middle of a body.  The remote bytes are a
  constant of the object, and the class invariant says that every recorded byte
  is right.
- **FactsCache**: the disk cache of what other Pythons answered when probed, as
  a system of steps of any number of processes and of the world around them.
  A probe reads files one at a time while they change.
- **Names, Excludes, Controls**: the sets behind `--no-binary`,
  `--only-binary`, `--all-releases` and `--only-final`, and how both are handed
  to the process that builds.
- **HttpCache**: the two-file HTTP cache as a protocol of any number of
  processes, and one process of it as a class.
- **Wheels, Sorting, Candidates**: from links to the candidate that is
  installed.
- **Configuration, Defaults**: editing a configuration file, and the way from
  all files and the environment to the defaults of options.
- **UrlPath**: cleaning the path of a URL.
- **Installation**: uninstall, install, commit or roll back, in a list.

Where an operation can fail for reasons outside the model, a constant `flaky`
tells whether it may, and the choice is left open in the method.  Exceptions
are results.

## What turned out false

- A read with a negative size promises everything up to the end
  (`src/kpip/_internal/network/lazy_wheel.py:93-105`) but fetches the last chunk only.
  `ReadToEndExact` gives the exact condition.
- Format control does not always survive forwarding.  A printed set that
  starts with a dash is refused by the child, as for `--no-binary _x`
  (`UnderscoreIsRefused`).  Otherwise `FormatForwardingExact` gives the
  condition: `:none:` is in no set as a name (`CapitalNoneIsLost`), and no
  project was excepted from `--only-binary :all:`.  `--pre` is not forwarded by
  the log at all (`ApplyPre`).
- A spelling such as `:ALL:` escapes the test for `:all:` but becomes `:all:`
  in canonical form (`CapitalAll`).  A comma list is still equivalent to its
  items, but a later value with such an item can tell the two apart;
  `DiscreetExact` says exactly which values can, and `LoggedItemExact` which
  items the log of release control does not replay.
- The facts cache can return a wrong answer.  An answer may be kept safely if
  and only if it is to be trusted: it came from the inputs its key names, for
  the interpreter itself, and at the stamping every directory is what it was
  found to be, or its entry can never be found (`TrustExact`).  Nothing else
  about what happens in between matters.  Three runs to a wrong answer are
  given.  The stamps are enough where an answer is kept right after its check
  and no link, `pyvenv.cfg` or directory turned or went during the probe
  (`CheckedFactsAreFresh`).
- Options of a DEFAULT section make memory and parser drift apart
  (`SyncExact`).  So does an edit that sets an option with leading dashes of
  its own, as in `global.--timeout`, or one of the nameless section, as in
  `.timeout`, which the parser takes for a default of all sections;
  `EditExact` says exactly when.
- An option that a file spells `index_url` is in memory but cannot be unset
  (`UnsetExact`).
- A wheel with an egg fragment is accepted without the checks for its format
  and tags, and may then make sorting raise (`AcceptedKeyExact`).
- A configuration file that is loaded under two kinds keeps the rank of the
  lower one (`RepeatedFileLosesRank`); `LookupOrderExact` says when that
  changes what a key gets.
- Cleaning keeps the bytes of a piece only if they are well-formed UTF-8
  (`CleanKeepsBytesExact`).

## Model

| member | source | states |
|---|---|---|
| Intervals.BisectsInOrder | src/kpip/_internal/network/lazy_wheel.py:208-209 | for every request in a non-empty file the two bisects come out in order, and the slice between them is exactly the recorded intervals that overlap the request |
| Intervals.OverlapSpans | src/kpip/_internal/network/lazy_wheel.py:194-196 | the widened interval holds the request and all overlapped intervals, and lies strictly apart from every other one |
| Intervals.GapsAreHoles | src/kpip/_internal/network/lazy_wheel.py:194-202 | what the generator yields is non-empty, ascending, never adjacent, and holds exactly the unrecorded bytes of the merged interval |
| Intervals.GapsTile | src/kpip/_internal/network/lazy_wheel.py:194-203 | gaps and overlapped intervals together have the size of the merged interval: they tile it |
| Intervals.NeededIsMissing | src/kpip/_internal/network/lazy_wheel.py:205-210 | the ranges requested for a download are exactly the bytes of the request that are not recorded yet |
| Intervals.SpliceCovers | src/kpip/_internal/network/lazy_wheel.py:195-203 | after the splice the lists are still sorted, disjoint and in bounds, record exactly the old bytes and the request, and have grown by the bytes fetched |
| Intervals.SizeCountsBytes | src/kpip/_internal/network/lazy_wheel.py:64-65 | for all lists of this shape, the sum of the interval lengths is the number of recorded bytes and at most the length of the file |
| LazyWheel.Merge | src/kpip/_internal/network/lazy_wheel.py:183-203 | the loop of the generator yields the specified gaps |
| LazyWheel.AccountedAfter | src/kpip/_internal/network/lazy_wheel.py:205-215 | as long as no request fails, the requested ranges stay pairwise disjoint and add up to what is recorded |
| LazyWheel.NothingFetchedTwice | src/kpip/_internal/network/lazy_wheel.py:205-215 | in a run without a failed request the bytes fetched are exactly as many as the bytes recorded |
| LazyWheel.PartlyPatchedAgrees | src/kpip/_internal/network/lazy_wheel.py:207-215 | a download that fails before or within a gap has changed no recorded byte |
| LazyWheel.LazyZip.constructor | src/kpip/_internal/network/lazy_wheel.py:60-65 | a new object has the length of the remote file and nothing recorded |
| LazyWheel.LazyZip.Seek | src/kpip/_internal/network/lazy_wheel.py:111-119 | from the start, the cursor or the end by the offset; a position before the start is refused and changes nothing |
| LazyWheel.LazyZip.Fetch | src/kpip/_internal/network/lazy_wheel.py:211-215 | one request: on success the range holds the remote bytes, on failure at any point each byte of the range is the remote or the old one, and nothing else changes |
| LazyWheel.LazyZip.FetchAll | src/kpip/_internal/network/lazy_wheel.py:210-215 | gap after gap; a failure leaves at most bytes of the gaps changed |
| LazyWheel.LazyZip.Download | src/kpip/_internal/network/lazy_wheel.py:205-215 | on success the recorded bytes become the old ones and the request, the requests sent are exactly the missing ranges and the cursor is back; on failure the lists are as before; in both cases every recorded byte equals the remote one |
| LazyWheel.Wanted | src/kpip/_internal/network/lazy_wheel.py:100-104 | the range a read downloads lies in the file, is a chunk at least where the file has one, and holds what a read of non-negative size returns |
| LazyWheel.LazyZip.Read | src/kpip/_internal/network/lazy_wheel.py:93-105 | a read of non-negative size returns as many bytes as there are up to the size, each the remote byte at its place, whatever was recorded before, and a read to the end the whole rest where the tail is known; the cursor moves by what is returned; a failed read moves nothing, and a size below -1 is refused after the download |
| LazyWheel.ReadToEndExact | src/kpip/_internal/network/lazy_wheel.py:100-105 | a read to the end is right for every remote file that agrees with the recorded bytes if and only if the unread rest is recorded or within the last chunk |
| LazyWheel.LazyZip.OpenAsZip | src/kpip/_internal/network/lazy_wheel.py:163-167 | for any sequence of seeks and reads the object replies, until a request fails, as a plain copy of the remote file would and with the same cursor, reads to the end included where what is recorded by then and the last chunk are enough; what is recorded afterwards is exactly what was and what the reads wanted |
| LazyWheel.Session.ServedIsRight | src/kpip/_internal/network/lazy_wheel.py:163-167 | that holds of every single reply |
| LazyWheel.Session.SuffixAnswerable | src/kpip/_internal/network/lazy_wheel.py:162-165 | behind the suffix a turn of the check has downloaded, every read to the end is among them |
| LazyWheel.LazyZip.TrySuffix | src/kpip/_internal/network/lazy_wheel.py:161-171 | one turn of the check: the suffix is recorded in full and the cursor is where it was |
| LazyWheel.LazyZip.CheckZip | src/kpip/_internal/network/lazy_wheel.py:158-171 | terminates; the first request is within the last chunk; acceptance comes with a tried suffix recorded in full, and a rejection of a file of at least two bytes only with all of it recorded and equal to the remote file |
| FactsCache.Stamps | src/kpip/_internal/interpreters/facts.py:496-500 | the stamps kept are those of the listed directories, leaving out empty names |
| FactsCache.Prober.LookUpFacts | src/kpip/_internal/interpreters/facts.py:438-476 | the lookup finds an answer exactly under the current key with every directory stamp current, and nothing without a cache directory |
| FactsCache.Prober.StoreFacts | src/kpip/_internal/interpreters/facts.py:479-511 | nothing is kept if a listed directory bears a stamp from the start or later, or if another file gave the answer; otherwise the answer is kept unless writing fails |
| FactsCache.Prober.ProbeAndStore | src/kpip/_internal/interpreters/facts.py:391-394 | with nothing else at work, the answer is what a probe gives now, the cache stays sound, and an answer not from a shim is found on disk afterwards |
| FactsCache.Prober.Probe | src/kpip/_internal/interpreters/facts.py:377-396 | with nothing else at work, the result is what a probe would give now unless this process remembers one, with or without a cache directory |
| FactsCache.KeptIsFound | src/kpip/_internal/interpreters/facts.py:438-512 | a kept answer is found later if and only if the key and the stamp of every listed directory are what they were |
| FactsCache.StoredIsExplained | src/kpip/_internal/interpreters/facts.py:496-502 | what is kept and fits its key was answered from contents that still carry the stamps stored with it |
| FactsCache.UnchangedIsAsFound | src/kpip/_internal/interpreters/facts.py:491-495 | a directory seen present whose stamp is older than the start, and which is not gone, is what it was found to be |
| FactsCache.KeepableIsAsFound | src/kpip/_internal/interpreters/facts.py:487-495 | where an answer passes the check and no directory it found is gone, every listed directory is what it was found to be |
| FactsCache.ExplainedHitIsFresh | src/kpip/_internal/interpreters/facts.py:443-449 | an entry whose key and stamps are current is what a fresh probe would answer |
| FactsCache.StepKeepsSteady | src/kpip/_internal/interpreters/facts.py:377-525 | whatever happens, what a process has seen stands or carries a stamp from after its start |
| FactsCache.StepKeepsSound | src/kpip/_internal/interpreters/facts.py:377-525 | every step of lookup, probe, check, keeping, pruning or change of the world keeps the cache sound, but for keeping an answer that is not to be trusted |
| FactsCache.RunsKeepSound | src/kpip/_internal/interpreters/facts.py:377-525 | so does every run |
| FactsCache.CachedFactsAreFresh | src/kpip/_internal/interpreters/facts.py:443-476 | in every interleaving from an empty cache in which no untrusted answer is kept, facts from disk equal what a fresh probe would return now |
| FactsCache.PromptIsCareful | src/kpip/_internal/interpreters/facts.py:487-502 | in a run in which answers are kept right after their check, and no link, `pyvenv.cfg` or directory has turned or gone during a probe, the check lets no untrusted answer through |
| FactsCache.CheckedFactsAreFresh | src/kpip/_internal/interpreters/facts.py:443-512 | so in every such run from an empty cache, whatever is written to the directories and when, facts from disk equal what a fresh probe would return now |
| FactsCache.PromptRunIsFound | src/kpip/_internal/interpreters/facts.py:443-512 | a run of that kind in which an answer is kept and found |
| FactsCache.UntrustedStoreMisleads | src/kpip/_internal/interpreters/facts.py:487-502 | every checked answer that is not to be trusted, of any process in any run, misleads in a system that gives this same answer: a run from the same start ends with a wrong answer found |
| FactsCache.TrustExact | src/kpip/_internal/interpreters/facts.py:487-502 | for every process whose answer has passed the check in any run, keeping it is harmless in all systems that would have given it if and only if it is to be trusted, which is a matter of what was seen and of the world at the stamping |
| FactsCache.DeletedDirectoryMisleads | src/kpip/_internal/interpreters/facts.py:491-500 | such a run: a directory is deleted before the store, and a wrong answer is found |
| FactsCache.NewConfigurationMisleads | src/kpip/_internal/interpreters/facts.py:456-463 | such a run: `pyvenv.cfg` appears between lookup and probe and later goes away, and a wrong answer is found |
| FactsCache.TurnedLinkMisleads | src/kpip/_internal/interpreters/facts.py:452-463 | such a run: a symbolic link is turned during the probe and back later, and a wrong answer is found |
| Names.CanonicalizeIsCanonical | src/kpip/_vendor/packaging/utils.py:82-124 | a canonicalized name is folded and has no two dashes in a row |
| Names.CanonicalStays | src/kpip/_vendor/packaging/utils.py:82-124 | canonical names are fixed points |
| Names.CanonicalizeIsPep503 | src/kpip/_vendor/packaging/utils.py:82-124 | it is the name in lower case with every run of dashes, underscores and dots as one dash, as PEP 503 has it |
| Excludes.CapitalAll | src/kpip/_vendor/packaging/utils.py:82-124 | `:ALL:` becomes `:all:` in canonical form |
| Names.SplitJoin | src/kpip/_internal/build_env/installer.py:99 | splitting at commas undoes joining |
| Names.Sorted | src/kpip/_internal/build_env/installer.py:99 | sorting lists every element of the set once, in ascending order |
| Excludes.JointKeepsDisjoint | src/kpip/_internal/models/format_control.py:44-59 | whatever the items, the two sets stay disjoint |
| Excludes.HandleAllKeepsDisjoint | src/kpip/_internal/models/release_control.py:20-57 | so they do after any sequence of options, and at most one holds `:all:` |
| Excludes.JointIsEach | src/kpip/_internal/models/format_control.py:44-59 | one value with all items leads to a state equivalent to that of one value per item |
| Excludes.CommaListIsSeparateOptions | src/kpip/_internal/models/release_control.py:36-57 | from every state a comma list of items that could be options and these as separate options lead to states that stay equivalent under any later options that are discreet |
| Excludes.DiscreetExact | src/kpip/_internal/models/release_control.py:36-57 | a value tells no two equivalent states apart if and only if it has an `:all:` or no item that is `:all:` in disguise |
| Excludes.ItemExact | src/kpip/_internal/models/release_control.py:53-57 | for one item: if and only if it is not `:all:` in disguise |
| Excludes.DisguisedAllIsDifferent | src/kpip/_internal/models/format_control.py:45-59 | as a later option a disguised `:all:` does tell a comma list from its items, for every name beside it |
| Controls.AlikeVerdicts | src/kpip/_internal/models/format_control.py:61-71 | equivalent states give every project the same verdicts, of formats and of pre-releases |
| Controls.CommaListVerdicts | src/kpip/_internal/models/release_control.py:74-91 | after any history, a comma list and its items as separate options give every project the same verdicts now and after any later discreet options |
| Controls.NoOptions | src/kpip/_internal/models/release_control.py:83-91 | without options there is no verdict on pre-releases, and both formats are allowed |
| Controls.LastOptionDecides | src/kpip/_internal/models/release_control.py:36-91 | after any history, an option that names a project decides for it, pre-releases allowed or final releases only, source or binary, and changes no other verdict |
| Controls.AllDecides | src/kpip/_internal/models/release_control.py:36-91 | after any history `:all:` decides for every project |
| Controls.ExceptionWins | src/kpip/_internal/models/release_control.py:83-91 | a project excepted from `:all:` has the verdict of its exception, and all others that of `:all:` |
| Controls.NoneTakesBack | src/kpip/_internal/models/format_control.py:44-59 | `:none:` empties its own side alone, and with both sides emptied nothing is decided |
| Controls.FormatControl.HandleMutualExcludes | src/kpip/_internal/models/format_control.py:39-59 | the loops with deletion compute the state the meaning of the value prescribes; a value that starts with a dash changes nothing |
| Controls.FormatControl.GetAllowedFormats | src/kpip/_internal/models/format_control.py:61-71 | the formats left are those the two sets prescribe |
| Controls.FormatControl.DisallowBinaries | src/kpip/_internal/models/format_control.py:73-78 | afterwards every project is to be built from source |
| Controls.ReleaseControl.HandleMutualExcludes | src/kpip/_internal/models/release_control.py:20-57 | the same loops also append exactly the log of the value to the order |
| Controls.ReplayRebuilds | src/kpip/_internal/models/release_control.py:38-57 | replaying the log one entry at a time does to any control exactly what the options did |
| Controls.LoggedItemExact | src/kpip/_internal/models/release_control.py:38-57 | the log entry of an item does what the item does in every state if and only if its canonical form is neither `:all:`, `:none:` nor starts with a dash |
| Controls.ReleaseControl.ApplyPre | src/kpip/_internal/cli/cmdoptions.py:788-801 | `--pre` sets the set but not the log: the replay allows pre-releases for no project where the parent allows them for all |
| Controls.OptionsAreWritten | src/kpip/_internal/build_env/installer.py:94-101 | whatever the options, the sets hold canonical names without commas, or `:all:` |
| Controls.PrintedItems | src/kpip/_internal/build_env/installer.py:94-101 | the printed set is split into its items again |
| Controls.ItemsAreRead | src/kpip/_internal/build_env/installer.py:94-101 | what a child makes of a printed set without `:none:`: all of its names, only `:all:`, or an emptied set |
| Controls.NoneIsRead | src/kpip/_internal/build_env/installer.py:94-101 | where `:none:` is in the set as a name, it clears what the child has read, `:all:` included |
| Controls.FormatForwardingExact | src/kpip/_internal/build_env/installer.py:94-101 | after any options at all the child refuses exactly a printed set that starts with a dash, and otherwise allows the same formats for all projects if and only if `:none:` is in neither set and not both `:all:` is in only-binary and no-binary has a name |
| Controls.UnderscoreIsRefused | src/kpip/_internal/build_env/installer.py:94-101 | `_x`, which the parent accepts, is refused |
| Controls.CapitalNoneIsLost | src/kpip/_internal/build_env/installer.py:94-101 | `:NONE:` is accepted and lost |
| Controls.ControlArgs | src/kpip/_internal/build_env/installer.py:94-107 | the loops build the two printed sets followed by the log as arguments |
| Controls.FirstArgsMean | src/kpip/_internal/build_env/installer.py:94-101 | first the printed `--no-binary` set, then the printed `--only-binary` set |
| Controls.LaterArgsMean | src/kpip/_internal/build_env/installer.py:103-107 | then the log of release control, one option with its value per entry, in order |
| Controls.ForwardedControls | src/kpip/_internal/build_env/installer.py:94-107 | parsed by a fresh child, the arguments are refused exactly in that case; otherwise they rebuild the release control exactly and the format control under that condition |
| HttpCache.StepKeepsSound | src/kpip/_internal/network/cache.py:70-128 | each step of any process keeps every named file complete and every temporary file private |
| HttpCache.RunsKeepSound | src/kpip/_internal/network/cache.py:70-128 | so does every interleaving |
| HttpCache.StepContents | src/kpip/_internal/network/cache.py:80-110 | only a replacement, with a whole value, or a removal changes what a name leads to |
| HttpCache.ReadersGetWholeValues | src/kpip/_internal/network/cache.py:70-128 | in every interleaving of any number of processes a value read for a file is one some writer wrote for it in full, and both halves of the entry had been written |
| HttpCache.AgreeingWritersMakeOneEntry | src/kpip/_internal/network/cache.py:50-54 | if all writers of a key write the same metadata and body, that is all a reader can get |
| HttpCache.DisagreeingWritersMix | src/kpip/_internal/network/cache.py:44-54 | if they do not, a reader can get the metadata of one entry and the body of another, for any two entries |
| HttpCache.SafeFileCache.Fill | src/kpip/_internal/network/cache.py:85-86 | the temporary file grows piece by piece without any name showing it |
| HttpCache.SafeFileCache.WriteToFile | src/kpip/_internal/network/cache.py:80-91 | the file is replaced as a whole or left as it was |
| HttpCache.SafeFileCache.Set | src/kpip/_internal/network/cache.py:99-103 | only the metadata of the key changes |
| HttpCache.SafeFileCache.SetBody | src/kpip/_internal/network/cache.py:121-128 | only the body of the key changes |
| HttpCache.SafeFileCache.Delete | src/kpip/_internal/network/cache.py:105-110 | each half goes unless its removal fails, whatever becomes of the other |
| HttpCache.SafeFileCache.Get | src/kpip/_internal/network/cache.py:70-78 | the metadata, exactly when both halves are there, or None on an error |
| HttpCache.SafeFileCache.GetBody | src/kpip/_internal/network/cache.py:112-119 | the body, exactly when both halves are there, or None on an error |
| Wheels.SupportIndexMin | src/kpip/_internal/models/wheel.py:36-52 | the least index of a supported tag the wheel has |
| Wheels.Preferences | src/kpip/_internal/index/package_finder.py:470-475 | each tag with the last index at which it is listed |
| Wheels.FindMostPreferredTag | src/kpip/_internal/models/wheel.py:54-73 | the least priority among the tags of the wheel |
| Wheels.RaiseUnlessSupported | src/kpip/_internal/models/wheel.py:36-80 | scan and lookup both raise exactly when the wheel is not supported |
| Wheels.LookupExact | src/kpip/_internal/models/wheel.py:54-73 | the lookup agrees with the scan for every wheel if and only if no tag is listed twice |
| Candidates.AcceptedFormatExact | src/kpip/_internal/index/package_finder.py:170-295 | an accepted link is of a permitted format, except exactly for wheels with an egg fragment where no binaries are permitted |
| Candidates.EggWheelsPass | src/kpip/_internal/index/package_finder.py:185-187 | a wheel with an egg fragment can be accepted whatever its name, its tags and the permitted formats |
| Candidates.AcceptedExact | src/kpip/_internal/index/package_finder.py:170-295 | a link is accepted, and with which version, exactly if nothing speaks against it: yanking, format, project, tags, upload time, version, Python of the version, Requires-Python |
| Candidates.MissingTimeExact | src/kpip/_internal/index/package_finder.py:228-240 | the error of a missing upload time comes exactly where one is asked for and the link is not refused before |
| Candidates.DigestAllowed | src/kpip/_internal/models/link.py:127-133 | a link is allowed exactly by a digest listed for its own algorithm |
| Candidates.AcceptedAndUnsortable | src/kpip/_internal/index/package_finder.py:185-256 | so there is an accepted wheel of a format that is not permitted whose sort key raises |
| Candidates.AcceptedKeyExact | src/kpip/_internal/index/package_finder.py:546-579 | the sort key of an accepted link raises if and only if it is a wheel with an egg fragment whose name or tags do not fit |
| Candidates.WheelsBeforeSource | src/kpip/_internal/index/package_finder.py:521-579 | with equal hashes and yanking, a wheel beats the source archive of its version |
| Candidates.BetterTagWins | src/kpip/_internal/index/package_finder.py:553-579 | with equal hashes and yanking, of two wheels of a version the one with the better tag wins |
| Candidates.AllowedHashWins | src/kpip/_internal/index/package_finder.py:526-529 | an allowed digest outweighs everything else |
| Candidates.YankedLoses | src/kpip/_internal/index/package_finder.py:531-535 | with equal hashes a yanked file loses to one that is not, whatever their versions |
| Candidates.NewerWins | src/kpip/_internal/index/package_finder.py:537-579 | with equal hashes, yanking and preference for binaries, the newer version wins, whatever tags and builds |
| Candidates.PreferredBinaryWins | src/kpip/_internal/index/package_finder.py:565-579 | where binaries are preferred a wheel beats source archives of any version |
| Candidates.GreaterBuildWins | src/kpip/_internal/index/package_finder.py:567-579 | with equal tags the greater build wins: any over none, then by number, then by suffix |
| Candidates.FilterUnallowedHashes | src/kpip/_internal/index/package_finder.py:298-369 | the loop keeps, in order, exactly the candidates no unallowed digest speaks against |
| Candidates.SortLinks | src/kpip/_internal/index/package_finder.py:794-808 | the first link of every URL, in order, those without an egg fragment first |
| Candidates.FirstLinksKeepUrls | src/kpip/_internal/index/package_finder.py:794-808 | no URL is lost |
| Candidates.FirstLinksExact | src/kpip/_internal/index/package_finder.py:794-808 | a link is taken exactly if no earlier one has its URL, and the order stays |
| Candidates.EvaluateLinks | src/kpip/_internal/index/package_finder.py:842-854 | the candidates of the sifted links in order, or the error of a missing upload time |
| Candidates.CollectedNone | src/kpip/_internal/index/package_finder.py:824-828 | the error comes exactly with a link whose upload time is missing |
| Candidates.CollectedExact | src/kpip/_internal/index/package_finder.py:829-840 | otherwise every accepted link with a version that can be parsed gives a candidate, in order, and no other does |
| Candidates.FindAllCandidates | src/kpip/_internal/index/package_finder.py:892-952 | only the locked link for a locked project, or an error; otherwise the candidates of local files before those of the pages, all of them accepted |
| Candidates.EligibleMeans | src/kpip/_internal/index/package_finder.py:477-514 | a candidate is eligible exactly if the specifier lets it through under the verdict of release control for the canonical project name, and no digest of its own speaks against it beside an allowed one |
| Candidates.ComputeBestCandidate | src/kpip/_internal/index/package_finder.py:594-609 | raises only for an eligible candidate that cannot be sorted; otherwise the applicable candidates are exactly the eligible ones in ascending order, the best is the first eligible one in the given order with no better one, and no eligible one of its hash, yanking and binary rank is newer |
| Candidates.FirstMaxIsBest | src/kpip/_internal/index/package_finder.py:581-592 | the first maximum of the filtered list is the best of the whole list |
| Candidates.BestHasAllowedHash | src/kpip/_internal/index/package_finder.py:526-529 | if any candidate the specifier lets through has an allowed hash, the best one does |
| Candidates.FilesWinTies | src/kpip/_internal/index/package_finder.py:949-950 | a candidate from a page is best only if it is strictly preferred to every eligible local file |
| Candidates.CollectedSort | src/kpip/_internal/index/package_finder.py:514-579 | among collected candidates only unfit wheels with an egg fragment make sorting raise |
| Sorting.LessIsOrder | src/kpip/_internal/index/package_finder.py:572-579 | the comparison of keys is a strict total order |
| Sorting.StableSortIsStable | src/kpip/_internal/index/package_finder.py:514 | the sort is ascending and keeps candidates of equal keys in order |
| Sorting.MaxIndexIsFirstMax | src/kpip/_internal/index/package_finder.py:591 | `max` picks the first of the greatest |
| Sorting.StableSortKeepsFirstMax | src/kpip/_internal/index/package_finder.py:514-592 | sorting first does not change which candidate is the first maximum |
| Configuration.Disassemble | src/kpip/_internal/configuration.py:67-74 | a key is split at its first dot; without a dot it is refused |
| Configuration.DisassembleKey | src/kpip/_internal/configuration.py:67-74 | a section without a dot and an option are recovered from their key |
| Configuration.NormalizeMeans | src/kpip/_internal/configuration.py:60-64 | a name keeps its characters, in lower case and with dashes for underscores, but for two leading dashes |
| Configuration.SetMeans | src/kpip/_internal/configuration.py:175-185 | exactly the one option of the parser and the one key in memory get the value |
| Configuration.UnsetMeans | src/kpip/_internal/configuration.py:202-219 | exactly the one option and the one key go, and the section exactly when neither options nor defaults are left for it |
| Configuration.SetKeepsSync | src/kpip/_internal/configuration.py:175-185 | setting a value in a section with a name keeps memory and parser together |
| Configuration.UnsetKeepsSync | src/kpip/_internal/configuration.py:202-219 | so does unsetting one, also where the emptied section goes |
| Configuration.EditKeepsSync | src/kpip/_internal/configuration.py:167-219 | a tidy edit keeps them together and a refused one changes neither |
| Configuration.EditsKeepSync | src/kpip/_internal/configuration.py:167-219 | so does every sequence of tidy edits |
| Configuration.SyncExact | src/kpip/_internal/configuration.py:167-219 | they agree after every sequence of tidy edits if and only if the file has no options in a DEFAULT section |
| Configuration.EditExact | src/kpip/_internal/configuration.py:167-219 | without DEFAULT options an edit that goes through parts them if and only if it sets an option with leading dashes of its own, or one of the nameless section that not every section has already |
| Configuration.NamelessSet | src/kpip/_internal/configuration.py:175-184 | an option of the nameless section becomes a default of all sections, which keeps them together if and only if all have the option already |
| Configuration.NamelessEditParts | src/kpip/_internal/configuration.py:167-185 | after such an edit they are apart, or one more tidy edit parts them |
| Configuration.NamelessEdit | src/kpip/_internal/configuration.py:67-74 | such edits go through: the key is a dot and any name |
| Configuration.UnsetExact | src/kpip/_internal/configuration.py:196-210 | a key in memory can be unset if and only if its own section has the option in its normalized spelling; otherwise it is an internal error |
| Configuration.DashedOptionBreaksSync | src/kpip/_internal/configuration.py:175-184 | such an option is stored under a key it is not loaded under, in every file and section |
| Configuration.DashedEdit | src/kpip/_internal/configuration.py:60-64 | such edits go through, for every section and name |
| Configuration.Parser.Put | src/kpip/_internal/configuration.py:179-181 | the section is added where it is missing; an option of the nameless one goes to the defaults |
| Configuration.Parser.Drop | src/kpip/_internal/configuration.py:204-214 | the option goes, from the defaults for the nameless section, and the section once it has no items |
| Configuration.Configuration.constructor | src/kpip/_internal/configuration.py:120-129 | empty dictionaries and parser lists for every kind |
| Configuration.Configuration.SetValue | src/kpip/_internal/configuration.py:167-185 | goes through exactly for a loaded file and a key with a dot; then the value is in memory under the normalized key and in the parser under section and option, every other key, section, option and default is what it was, nothing of any other file changes, and the file is marked |
| Configuration.Configuration.UnsetValue | src/kpip/_internal/configuration.py:187-219 | goes through exactly for a key in memory whose section has the option; then the option is gone and every other is what it was; the errors for an unloaded file, an unknown key and a missing option, and what becomes of a key that is the name of a file |
| Configuration.Configuration.Save | src/kpip/_internal/configuration.py:221-239 | only the edited file is written, with the sections of its parser; an error leaves every other file alone |
| Configuration.LoadFile | src/kpip/_internal/configuration.py:285-294 | a loaded file is in memory option for option, with the values of its sections before its defaults and no other key, and has no entry if it has no section |
| Defaults.DictionaryExact | src/kpip/_internal/configuration.py:250-260 | the nested dictionaries are the files in order of precedence if and only if no file name is repeated |
| Defaults.LaterVariantWins | src/kpip/_internal/configuration.py:157-160 | a kind of file that comes later outranks all before it |
| Defaults.LookupOrderExact | src/kpip/_internal/configuration.py:250-260 | with files loaded more than once every key gets the value of the highest file, whatever is in them, if and only if any two files come in the same order by their first and their last place |
| Defaults.RepeatedFileLosesRank | src/kpip/_internal/configuration.py:250-260 | a file loaded under two kinds keeps the place of the lower one and loses to files in between |
| Defaults.HighestFileDecides | src/kpip/_internal/configuration.py:157-160 | the surviving value of a key is that of the highest file that defines it |
| Defaults.GetValue | src/kpip/_internal/configuration.py:152-165 | the looked-up value is the surviving one |
| Defaults.EffectiveMeans | src/kpip/_internal/cli/parser.py:234-263 | the environment decides if its value is not empty, else the section of the command, else the global one |
| Defaults.GroupFile | src/kpip/_internal/cli/parser.py:248-252 | pooling the values of one file keeps, by section, the last value of every full key |
| Defaults.GroupBySection | src/kpip/_internal/cli/parser.py:243-252 | so does pooling all files |
| Defaults.OrderedItems | src/kpip/_internal/cli/parser.py:234-263 | from the files of all kinds: the last item for an option is the surviving non-empty value of the environment, else of the command, else of the global section |
| Defaults.UpdateDefaults | src/kpip/_internal/cli/parser.py:265-327 | each store option with a destination of its own gets that value, or keeps its default |
| UrlPath.UnpercentPercent | src/kpip/_internal/models/link.py:163 | decoding undoes encoding for all bytes (section 2.1 of RFC 3986) |
| UrlPath.PercentByteMeans | src/kpip/_internal/models/link.py:163 | exactly unreserved characters and slashes stay, any other byte becomes two hexadecimal digits in capitals (sections 2.1 and 2.3 of RFC 3986) |
| UrlPath.EncodedByte | src/kpip/_internal/models/link.py:163 | a percent sign with two hexadecimal digits in either case stands for that byte |
| UrlPath.PlainText | src/kpip/_internal/models/link.py:163 | text without a percent sign stands for itself |
| UrlPath.CleanPartIsClear | src/kpip/_internal/models/link.py:158-163 | a cleaned piece consists of unreserved characters, slashes and encoded bytes |
| UrlPath.CleanPartIdempotent | src/kpip/_internal/models/link.py:158-163 | cleaning a piece twice is cleaning it once (section 2.4 of RFC 3986) |
| UrlPath.ReencodedExact | src/kpip/_internal/models/link.py:163 | bytes survive decoding and encoding if and only if they are well-formed UTF-8, by lead and continuation bytes |
| UrlPath.DecodeReplacingIsUtf8 | src/kpip/_internal/models/link.py:163 | a decoder that replaces malformed parts by U+FFFD is one for which all this holds |
| UrlPath.CleanPartKeepsBytes | src/kpip/_internal/models/link.py:158-163 | a piece stands for the same bytes afterwards if and only if these are well-formed UTF-8 |
| UrlPath.LoneByteChanges | src/kpip/_internal/models/link.py:158-163 | `%FF` does not |
| UrlPath.SafePartStays | src/kpip/_internal/models/link.py:158-163 | a piece of unreserved characters and slashes is left alone |
| UrlPath.JoinSplit | src/kpip/_internal/models/link.py:200 | splitting at the reserved characters loses nothing |
| UrlPath.SplitExact | src/kpip/_internal/models/link.py:200 | a path is split at every `@` and every encoded slash, and nowhere else |
| UrlPath.SplitJoined | src/kpip/_internal/models/link.py:200-208 | quoted pieces joined by separators split into the same pieces and separators |
| UrlPath.CleanKeepsSeparators | src/kpip/_internal/models/link.py:189-208 | the cleaned path has the same separators in the same order, in upper case, and no others (section 6.2.2.1 of RFC 3986) |
| UrlPath.CleanIdempotent | src/kpip/_internal/models/link.py:189-208 | cleaning a path twice is cleaning it once |
| UrlPath.CleanKeepsBytesExact | src/kpip/_internal/models/link.py:189-208 | piece by piece the path stands for the same bytes if and only if those of every piece are well-formed UTF-8 |
| UrlPath.CleanUrlPath | src/kpip/_internal/models/link.py:189-208 | the loop over pieces and separators computes the cleaned path |
| Installation.DeduplicatedKeepsLast | src/kpip/_internal/req/__init__.py:30-54 | each name once, with the last requirement given for it |
| Installation.DeduplicatedKeepsOrder | src/kpip/_internal/req/__init__.py:30-54 | projects keep the order in which they were first named |
| Installation.InstallFirstMeans | src/kpip/_internal/req/__init__.py:74-105 | with part of the list done, its projects have what was asked for, and all others what they had |
| Installation.Environment.Uninstall | src/kpip/_internal/req/__init__.py:77-82 | the distribution is moved aside, to be committed or rolled back once |
| Installation.InstallOne | src/kpip/_internal/req/__init__.py:77-101 | one turn: a failure leaves the environment as it was and the path set rolled back, a success leaves the new distribution and the path set committed |
| Installation.InstallEach | src/kpip/_internal/req/__init__.py:74-105 | if the k-th requirement raises without success the environment is that of the first k-1, for every list and failure point, and all earlier path sets are committed |
| Installation.InstallGivenReqs | src/kpip/_internal/req/__init__.py:38-105 | the same from the raw list, with the assertion on nameless requirements before anything is touched; it goes through exactly if no installation of a named project fails, and then every project has what its last requirement asked for |

## Left out

- LazyWheel.LazyZip.OpenAsZip: the ZIP reader is an arbitrary list of seeks and reads fixed before it starts, with an arbitrary verdict; what it makes of the bytes is not modelled.
- HTTP sessions, headers, retries and the check for range support; a server that answers a range request with other bytes than the requested ones.
- FactsCache.CachedFactsAreFresh: assumes, as `FactsCache.CheckedFactsAreFresh` does, that every write of a file gives it a stamp of its own and that an interpreter that answers for itself depends on its key inputs and listed directories only; all directories are checked in one step and stamped in a later one, and a lookup is one step.
- FactsCache.Prober.Probe: the memory of one process may be out of date, as in the original; the exceptions of a probe that cannot be run, fails or answers nonsense are not told apart.
- Which entries pruning removes; pruning may remove any.
- Names.CanonicalizeIsCanonical: letters are ASCII; lower case of other scripts is not modelled.
- Controls.CommaListVerdicts: for lists whose items do not start with a dash, which could not be values of options of their own.
- Controls.ReplayRebuilds: for options whose items, as far as they are acted on, are tidy (also the release half of `Controls.ForwardedControls`); `Controls.LoggedItemExact` shows that the log fails for every other item.
- Controls.ControlArgs: the other arguments of the subprocess, and option parsing beyond pairs of a long option and its value.
- Permissions and synchronization of temporary files, directories, and the encoding of keys as paths, which is taken to be injective.
- HttpCache.SafeFileCache.GetBody: hands out the bytes of the open file at once; `set_body_from_io` differs from `set_body` only in where the bytes come from.
- Candidates.AcceptedKeyExact: what the packaging library decides about version strings, specifiers and wheel file names is given by parameters; the reasons for a rejection are its kind without the text.
- Candidates.FindAllCandidates: the memory of earlier searches and how pages are fetched; the sorted order of the local links is an input.
- Configuration.Configuration.UnsetValue: `KeyError` stands for a file that has no values in memory, which the original does not catch.
- Configuration.Configuration.Save: the text of a parser and reading it back, which fails for a nameless section; a file written in part.
- Configuration.SyncExact: for files whose sections have no dot and whose options are already spelt the normalized way (also `Configuration.EditExact`).
- Defaults.UpdateDefaults: options that store a string, one per destination; boolean, counting, repeatable and callback options and the check of a value.
- UrlPath.CleanUrlPath: the branch for local paths, which depends on the operating system; what the decoder makes of malformed bytes is any function.
- Installation.InstallGivenReqs: how each installation ends is an input; an uninstallation that itself raises, and what commit and rollback do to files.
- The resolvers, option definitions, logging, progress bars, scheme inference and the command classes: user interface or sources outside this model.
