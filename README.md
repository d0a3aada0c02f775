# pystand, modelled in Dafny

pystand installs pre-built standalone Python versions, one directory per
version, under a versions directory. It keeps three caches beside it:

- a release cache, with one file per release tag of the build project;
- a downloads cache, with one directory of archives per release tag;
- a file holding the latest release tag.

This project models the decision logic of `pystand.py` and proves what it
guarantees:

- **Versions and Matcher.** `is_release_version`, and `VersionMatcher.match`.
  The matcher resolves an empty, partial or full version name against
  candidate names that are kept greatest first.
- **ReleaseTag.** `check_release_tag`: a release tag is an eight-digit
  `YYYYMMDD` calendar date.
- **Catalog.** `add_file`: an asset file name is parsed into
  `impl-ver[+tag]-arch` and filed in the nested catalog of a release.
- **Links.** The link map of `update_version_symlinks`. Every dotted prefix
  of a version name links to the newest name one component longer. Names
  with no pre-release beneath them are preferred.
- **Archive.** The layout step of `fetch`, which decides which part of an
  unpacked archive becomes the version directory.
- **Store.** The on-disk state as a class over maps, and the operations
  that change it:
  - `rm_path`, `fetch`, `install` and `remove`;
  - `keeplist` and `purge_unused_releases`;
  - the scan, unlink and link loops of `update_version_symlinks`.

  The filter of `iter_versions` is `Store.IsVersionDir`: a real directory
  whose name starts with a digit.
- **Selection.** `get_version_names`, and the guard chain that `update`
  runs for each installed version.

The version order of `packaging.version.parse` (PEP 440, in which `3.12.3rc1`
sorts below `3.12.3`) is a parameter `lt`. Dafny only requires it to be a
strict total order (`Versions.StrictTotalOrder`). The worked examples state
the PEP 440 facts they rely on as hypotheses, or list their candidates
greatest first.

Outcomes the program gets from the outside world are parameters of the
methods:

- whether the download succeeds (`fetchOk`);
- the unpacked tree, or none when unpacking fails (`unpacked`);
- whether `strip_binaries` ran (`stripRan`);
- whether the metadata file could be written (`writeOk`);
- the current time (`now`).

Where the code and its documentation differ, the model follows the code:

- **Link targets.** The prefix walk of `update_version_symlinks` files each
  intermediate name under its own head. So the link `3` points at the link
  `3.12`, not at `3.12.3` (pystand.py:515-523). For the versions
  `{3.11.0, 3.12.1, 3.12.3, 3.13.0b1}` the links are `3 -> 3.12`,
  `3.12 -> 3.12.3`, `3.11 -> 3.11.0` and `3.13 -> 3.13.0b1`.
  `Links.LinkTargetKnown` states that a target is a version name or another
  link name.
- **Exact matches.** `match` returns a name that is itself a candidate
  before it handles upgrading (pystand.py:302-303). So upgrading `3.12.3`
  among `{3.12.3, 3.12.4}` gives `3.12.3` (`Matcher.ExactBeatsUpgrade`).

## Model

| member | source | states |
|---|---|---|
| Versions.IsReleaseVersion | pystand.py:281-283 | a formal release holds at least one digit, and every character of it other than '.' is a digit |
| Versions.ReleaseVersionChars | pystand.py:281-283 | a name is a formal release exactly when it consists of digits and dots and holds at least one digit |
| Versions.RsplitJoin | pystand.py:311 | a dotted name is its `rsplit('.', 1)` head, a dot, and a last component that holds no dot; the head is shorter |
| Versions.HeadOfJoin | pystand.py:311 | splitting `h + "." + t` at its last dot, where `t` is non-empty and has no dot, gives back `h` |
| Versions.SortDescending | pystand.py:290 | the matcher's `sorted(..., reverse=True)`: strictly descending, holds exactly the given names, each once |
| Versions.SortedDescHead | pystand.py:533 | the first element of a descending sequence is the greatest of its elements |
| Matcher.FirstEligible | pystand.py:318-323 | the scan returns None exactly when no candidate has the prefix (and is a release when one is required); otherwise it returns the first one that does |
| Matcher.TrialPrefix | pystand.py:305-314 | the trial prefix ends in '.'; it is the name plus '.' when the name has no '.'; without upgrade it is the name, with '.' appended unless already there; with upgrade it is the `rsplit` head with '.' appended unless the head already ends in one; it always begins `v + "."` |
| Matcher.Match | pystand.py:292-323 | a result is always a non-empty candidate; a candidate spec is returned unchanged; an empty spec yields a formal release; any other result starts with the trial prefix; upgrading a formal release (or a name without '.') yields a formal release |
| Matcher.FirstEligibleIsGreatest | pystand.py:290-321 | on a descending sequence, the first eligible candidate is the greatest eligible one |
| Matcher.LatestRelease | pystand.py:296-300 | `match(None)` and `match('')` give the greatest formal release, or None exactly when there is none |
| Matcher.GreatestAccepted | pystand.py:305-323 | a non-empty spec that is not a candidate resolves to the greatest candidate it accepts, or to None exactly when it accepts none |
| Matcher.MatchIdempotent | pystand.py:302-303 | matching a result again, with or without upgrade, returns the same result |
| Matcher.MinorResolvesToNewestPatch | pystand.py:305-321 | "3.12" resolves to 3.12.3 among 3.12.1, 3.12.3rc1 and 3.12.3 |
| Matcher.ExactBeatsUpgrade | pystand.py:302-303 | upgrading 3.12.3 among {3.12.3, 3.12.4} returns 3.12.3 |
| Matcher.UpgradeAccepts | pystand.py:308-321 | upgrading 3.12.3 accepts 3.12.4 and 3.12.5 but not 3.13.0 |
| Matcher.UpgradeWithinMinor | pystand.py:308-321 | upgrading 3.12.3 among 3.13.0, 3.12.5 and 3.12.4 gives 3.12.5 |
| Matcher.UnknownMinorNotFound | pystand.py:313-323 | "9.9" resolves to nothing when no candidate starts with "9.9." |
| ReleaseTag.CheckReleaseTag | pystand.py:368-371 | the first message is returned exactly when the tag is not eight ASCII digits |
| ReleaseTag.FormattedDateAccepted | pystand.py:368-378 | the tag of every calendar date from year 1 to 9999 is accepted, and its three fields read back as that date |
| ReleaseTag.AcceptedIsDate | pystand.py:368-378 | every accepted tag is a calendar date, and is the zero-padded rendering of that date |
| ReleaseTag.SampleTagAccepted | pystand.py:368-378 | 20240415 is accepted |
| ReleaseTag.LeapDayAccepted | pystand.py:373-378 | 20240229 is accepted, because 2024 is a leap year |
| ReleaseTag.CommonYearLeapDayRejected | pystand.py:373-376 | 20230229 is eight digits but is refused as no date |
| ReleaseTag.YearZeroRejected | pystand.py:373-376 | 00000101 is refused as no date, because there is no year 0 |
| ReleaseTag.MalformedTagsRejected | pystand.py:370-371 | 2024041 (seven digits) and 2024-4-1 (not all digits) are refused as not eight digits |
| Catalog.ParseAssetName | pystand.py:439-452 | a name is ignored as a non-archive exactly when it ends in neither `.tar.zst` nor `.tar.gz`; the fields filed hold no '-', and the version holds no '+' |
| Catalog.ArchiveStemOf | pystand.py:439-442 | `.tar.zst` and `.tar.gz` are recognised and cut off |
| Catalog.SplitFields | pystand.py:446 | `split('-', 2)` of `impl-mid-arch` gives the three fields when the first two hold no '-' |
| Catalog.SplitTag | pystand.py:449-450 | `ver.split('+')` of `ver+tag` gives the version and the tag |
| Catalog.ParseAssetFileName | pystand.py:439-452 | the asset name of an archive of this release, with or without a `+tag`, parses back to its implementation, version and architecture |
| Catalog.OtherReleaseSkipped | pystand.py:449-452 | an archive tagged with another release is never filed |
| Catalog.Insert | pystand.py:454-462 | after filing, `files[impl][ver][arch]` is the URL; every other (impl, ver, arch) entry is unchanged; the implementation key and the version key exist |
| Catalog.ReleaseFiles.AddFile | pystand.py:437-462 | the catalog changes only for a name that parses to this release's archive, and then exactly as Insert says |
| Archive.InterpreterRoot | pystand.py:260-275 | the layout step succeeds exactly when `python/` is a folder and either there is no `install/`, or `install/` is a folder and, when sources are requested and `python/` holds anything beside it, `install/src/` is absent or a folder and no moved entry clashes with an entry of the same name there (only a file over a file or a folder over an empty folder may be replaced) |
| Archive.FlatLayout | pystand.py:261-263 | without `python/install/`, the contents of `python/` become the version |
| Archive.SourceLayout | pystand.py:263-275 | with `python/install/`, its entries other than `src` are kept; when sources are requested and `python/` holds anything beside `install/`, the result holds exactly `install/`'s entries plus `src`, and `src/` holds exactly its old entries and the moved ones, every moved entry as it was and every old entry not replaced as it was; otherwise `install/` is taken as it is |
| Archive.SourceClashRaises | pystand.py:266-271 | `python/{install/{src/{Modules/{a}}}, Modules/{b}}` with sources requested raises in the middle of the moves; without sources `install/` is installed |
| Archive.Leftover | pystand.py:266-271 | what a raising layout step leaves: the unpacked tree when the raise comes before any move; after a clash, everything outside `python/` is unchanged, `python/` has lost exactly the moved entries and keeps the rest as they were, `install/` keeps its keys and its entries other than `src`, and `src/` holds exactly its old entries plus the moved ones, every moved entry as it was and every old entry not replaced as it was |
| Archive.MissingPythonRaises | pystand.py:261-275 | with no folder `python/` the layout step raises |
| Links.Chain | pystand.py:515-523 | the prefix walk starts at the version name |
| Links.ChainSteps | pystand.py:516-523 | each step of the walk goes from a name with a '.' before its last character to its `rsplit` head; the walk ends at the first name without one |
| Links.HeadInChain | pystand.py:516-523 | the walk passes through the head of every name on it that is filed |
| Links.WalkPrefixes | pystand.py:515-523 | the `while` walk of one name files every name on it under its head; `pre_releases` grows only along the walk, stays closed under taking heads, and stays within any head-closed set that holds it |
| Links.GroupPrefixes | pystand.py:513-523 | after every version is walked, `newlinks_all` maps each head to exactly the names filed under it, and `pre_releases` holds exactly the names on the walks from pre-release versions |
| Links.PickTargets | pystand.py:528-533 | each link name gets the greatest of its candidates, restricted to names without a pre-release beneath them when the link name has one and such candidates exist |
| Links.NewLinks | pystand.py:512-533 | the link map has exactly the link names as keys, and each target is the greatest chosen candidate |
| Links.LinkNamesDigit | pystand.py:506-517 | every link name starts with a digit |
| Links.LinkShape | pystand.py:516-533 | a link name is its target cut just before the target's last '.' |
| Links.LinkTargetKnown | pystand.py:515-533 | a target is an installed version name or another link name |
| Links.NotPreIsRelease | pystand.py:514-521 | a walked name with no pre-release beneath it is a formal release |
| Links.FormalPreferred | pystand.py:525-533 | when any candidate of a link has no pre-release beneath it, neither does the target, and the target is a formal release |
| Links.LinkMapUnique | pystand.py:528-533 | the version names determine the link map |
| Links.PreOnlyLinked | pystand.py:529-533 | a prefix whose candidates are all pre-releases still gets a link, to the greatest of them |
| Store.IsVersionDir | pystand.py:326-335 | the filter of `iter_versions`: a real directory whose name starts with a digit, so never a scratch directory of install or fetch |
| Store.KeepSet | pystand.py:548-558 | the keep set holds the release of every version directory that records one, plus the cached latest tag, and nothing else |
| Store.InstallOutcome | pystand.py:242-278 | install succeeds exactly when a URL is offered, the archive is cached or fetched, unpacks, has a usable layout, and its metadata is written; a fetch failure happens only when the archive was not cached |
| Store.Touched | pystand.py:631-634 | remove touches the release file of the removed version's recorded release, creating it if need be, so that its modification time becomes now; no other release file changes |
| Store.ScratchNamesDistinct | pystand.py:233-674 | the two scratch names differ from each other and from the version, and neither is a version name |
| Store.AfterLastSlashSuffix | pystand.py:237 | the archive name is the part of the URL after its last '/': it holds no '/', ends the URL, is preceded by a '/' when it is not the whole URL, and is the whole URL when there is no '/' |
| Store.RelinkedLinks | pystand.py:535-545 | after unlinking the stale links and creating the missing ones, the symlinks are exactly the new link map; the version names are unchanged; every entry that is not a symlink is unchanged |
| Store.SymlinksIdempotent | pystand.py:535-545 | when the existing links already are the link map, nothing is unlinked, nothing is created and the directory is unchanged |
| Store.RelinkedSame | pystand.py:535-545 | relinking to the links already present changes nothing |
| Store.Store.RmPath | pystand.py:197-208 | the entry goes, whatever it is; the result says whether it was there |
| Store.Store.Remove | pystand.py:625-636 | a present version goes, after its recorded release's cache file is touched; an absent version changes nothing |
| Store.Store.Keeplist | pystand.py:548-558 | the loop computes the keep set |
| Store.Store.PurgeReleaseCache | pystand.py:566-574 | a release cache file is deleted exactly when it is outside the keep set and has expired; every unexpired file outside the keep set joins it |
| Store.Store.PurgeDownloads | pystand.py:576-580 | a download directory is deleted exactly when its release is outside the final keep set |
| Store.Store.PurgeUnusedReleases | pystand.py:561-580 | release files are kept when their release is kept or they have not expired; download directories are kept exactly for the final keep set; versions are untouched |
| Store.Store.Fetch | pystand.py:228-278 | the outcome is InstallOutcome's; the archive is cached unless the fetch failed; the fetch scratch directory is gone except when the layout step raised, when it holds the unpacked tree after some of the moves that do not clash; on success the target scratch directory holds the laid-out tree |
| Store.Store.CacheArchive | pystand.py:237-250 | the archive is in the release's download directory afterwards exactly when it was there or the fetch succeeded |
| Store.Store.MakeScratch | pystand.py:674-676 | the scratch name becomes an empty directory, whatever was there |
| Store.Store.Install | pystand.py:663-693 | a distribution with no URL changes nothing; otherwise the outcome is InstallOutcome's and the archive is cached unless the fetch failed; the version entry changes only on success, and then it holds the laid-out tree with the metadata written; both scratch directories are gone except when the layout step raised, when the fetch scratch directory holds what Fetch leaves; the release cache changes only on success, by Touched |
| Store.Store.InstallFrom | pystand.py:674-693 | as Install, once a URL is offered |
| Store.Store.Commit | pystand.py:684-691 | a failed metadata write deletes the scratch directory and leaves the version; otherwise the old version is removed and the scratch directory, with the metadata, takes its place |
| Store.Store.ReplaceVersion | pystand.py:690-691 | the old version is removed, touching its release file, and the scratch directory moves onto its name |
| Store.Store.ScanVersions | pystand.py:502-510 | the scan yields exactly the digit-named symlinks with their targets and the digit-named non-links |
| Store.Store.UnlinkStale | pystand.py:535-539 | exactly the old links that are missing from the map or have a different target are unlinked |
| Store.Store.CreateMissing | pystand.py:541-545 | exactly the map's links that are absent or had a different target are created |
| Store.Store.UpdateVersionSymlinks | pystand.py:496-545 | the new links are the link map of the version names; the stale links go and the missing ones are made; afterwards the symlinks are exactly the link map, and no entry that is not a symlink has changed |
| Selection.Resolve | pystand.py:355-356 | `matcher.match(v) or v` is v itself or a non-empty installed name, and an installed name resolves to itself |
| Selection.ResolveDenotes | pystand.py:355-356 | `matcher.match(v) or v` is an installed name exactly when v is installed or accepts one, and then it is the name v denotes; otherwise it is v |
| Selection.FlagsAccepted | pystand.py:340-350 | the accepted flag combinations are `--all` alone, `--all --skip` with versions, or versions without `--all` or `--skip` |
| Selection.ResolveAllDenotes | pystand.py:356 | each resolved spec is the installed name it denotes, or is the spec itself and unknown |
| Selection.UnknownReported | pystand.py:358-363 | the unknown names reported are exactly the specs that match nothing installed |
| Selection.NotGiven | pystand.py:358-365 | an installed name is left out of `given` exactly when no spec denotes it |
| Selection.SortAscending | pystand.py:365 | `sorted(..., key=parse_version)`: strictly ascending, and holds exactly the given names |
| Selection.GetVersionNames | pystand.py:338-365 | flag errors are reported in order; an error is reported exactly when some spec matches nothing installed, and it names exactly those specs; without `--all`, each spec is replaced by the installed name it denotes, in order; with `--all`, the result is every installed name that no spec denotes, oldest first |
| Selection.UpdateDecision | pystand.py:1052-1094 | the guard chain: a version without metadata is skipped for that reason and only then; a version from the target release is skipped as current exactly when it records that release; an upgrade goes to an offered version built for the recorded distribution |
| Selection.UpgradeOffered | pystand.py:1054-1090 | an upgrade installs a version the target release offers, built for the recorded distribution, over a version that records another release; sources are included when the old version has them |
| Selection.UpgradeNeverClobbers | pystand.py:1076-1078 | an upgrade to another version never lands on a name already present |
| Selection.UpgradeStaysInSeries | pystand.py:1060 | an upgrade to another version stays within the old version's series, and a formal release moves only to a formal release |
| Selection.UpgradeNewest | pystand.py:1060 | the upgrade goes to the greatest offered version the old one accepts |
| Selection.KeepRespected | pystand.py:1067-1094 | with `--keep`, an upgrade never removes the old version and never reinstalls it in place; a version offered again is refused exactly when it records a release other than the target and its distribution is offered |
| Selection.ReinstallWithoutKeep | pystand.py:1060-1094 | without `--keep`, a version the target release offers again is reinstalled as itself and not removed |
| Selection.CurrentLeftAlone | pystand.py:1057-1058 | a version already installed from the target release is skipped |

## Left out

- Network access (`urlopen`, the GitHub API and `get_release_files`), archive decoding (`register_zst`, `shutil.unpack_archive`) and the `strip` subprocess. Each is a parameter: `fetchOk`, `unpacked` and `stripRan`.
- JSON reading and writing. A metadata file is `Option<Meta>`, with `""` standing for a missing key. A missing or unreadable file, and a file holding the empty object `{}` (which is falsy, so `update` skips it as having no data, pystand.py:1053-1054), are all `None`. Writing it either succeeds or fails (`writeOk`).
- URL parsing and `unquote`. The archive name is the text after the last '/' of the URL, so a query string or a percent escape is not modelled.
- Clocks and floating-point modification times. Times are integers, and `now` is a parameter.
- Locking, argument parsing, printing, colours, `show_list`, `to_human`, `run_uv` and the other commands.
- Unicode `isdigit`: only ASCII digits are digits.
- PEP 440 itself: the version order is a parameter `lt`, a strict total order on all strings. So the model drops two behaviours. First, `parse_version` raises `InvalidVersion` on a name that is not a PEP 440 version. `iter_versions` yields any digit-initial directory, such as `3.12.3-old`, so `list --all` (pystand.py:365) and the symlink update (pystand.py:533) would crash on one; the model goes on. Second, names PEP 440 ranks equal, such as `3.12` and `3.012`, are ranked strictly; the source breaks that tie by set iteration order at pystand.py:533.
- The versions directory is assumed to exist. The source returns early from `update_version_symlinks` when it does not.
- The `update` loop itself is not modelled as one method. Its guards are `Selection.UpdateDecision`, and its install and remove steps are `Store.Store.Install` and `Store.Store.Remove`.
- Store.Store.Fetch: when a moved entry clashes with one in `install/src/`, which entries moved before the raise depends on the order the directory lists them in. The model states only that they are some of the entries that do not clash (`Archive.SafeMoves`). Store.Store.Install and Store.Store.InstallFrom pass this on.
- Store.Store.Remove: requires the entry at the version's name to be absent or a directory. For a live symlink there, the source first touches the release file named by the metadata behind the link (pystand.py:633-634); a plain file has no metadata to read. In both cases `shutil.rmtree` then raises (pystand.py:636). A dangling symlink does not exist for `remove`, which returns at pystand.py:628. The install command can reach this with `--force` (pystand.py:997-1003, 690). The model does not cover these raises.
- Store.Store.Install, Store.Store.InstallFrom, Store.Store.Commit and Store.Store.ReplaceVersion: require the entry at the version's name to be absent or a directory. `Install` also requires the version to be in the catalog; otherwise the source raises `KeyError` at pystand.py:669. With a file or a symlink at the name, a failed fetch returns its error normally (pystand.py:686-687). After a good fetch, `remove` raises on a file or a live symlink as above. On a dangling symlink, `remove` returns and `tmpdir.replace` raises (pystand.py:691). In both cases `.{version}-tmp` is left behind. The install command reaches these with `--force` for a file or a live symlink, and with a dangling symlink even without it (pystand.py:997-1003). The model does not cover these raises.
- Store.Store.UpdateVersionSymlinks: requires that no link name is the name of an installed version, that is, of a digit-named entry that is not a symlink. The source would raise on `symlink_to` over such an entry.
- Selection.GetVersionNames: takes the installed names directly. They must start with a digit, as `iter_versions` yields them.
- Selection.UpdateDecision: the early return of `update` when the target release has no files is not modelled; with nothing offered, every version is skipped with `NoMatch`. The lemmas about it take the version name as non-empty, as `iter_versions` yields it.
