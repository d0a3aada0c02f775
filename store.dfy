/** The tool's on-disk state and the operations that change it: the
    versions directory (version directories, their symlinks, scratch
    directories), the release cache (one file per release tag, with its
    modification time), the downloads cache (one directory of archives per
    release tag) and the cached latest release tag. */
module Store {
  import opened Wrappers
  import opened Versions
  import opened Archive
  import opened Links

  /** The metadata file of a version directory, as get_json reads it.
      An empty `release` or `distribution` stands for a missing key. */
  datatype Meta = Meta(release: string, distribution: string, stripped: bool)

  /** An entry of the versions directory. A directory carries its metadata
      (None when the file is missing or unreadable) and its tree. */
  datatype Entry = Link(target: string) | Plain | Dir(meta: Option<Meta>, tree: Tree)

  /** Why install gives up. LayoutRaised is the exception fetch lets escape
      when the archive has no usable `python/` layout. */
  datatype InstallError = NotOffered | FetchFailed | UnpackFailed | LayoutRaised | WriteFailed

  const SecondsPerDay := 86400

  /** iter_versions: a real directory (not a symlink) whose name starts with
      a digit, so never one of install's scratch directories. */
  predicate IsVersionDir(name: string, e: Entry)
    ensures IsVersionDir(name, e) ==> forall v :: name != ScratchName(v) && name != FetchScratchName(v)
  {
    e.Dir? && IsDigitName(name)
  }

  /** The `release` recorded in an entry's metadata, "" when there is none. */
  function ReleaseOf(e: Entry): string {
    if e.Dir? && e.meta.Some? then e.meta.value.release else ""
  }

  /** keeplist: the release of every installed version that records one,
      and the cached latest tag. */
  function KeepSet(versions: map<string, Entry>, latest: Option<string>): (keep: set<string>)
    ensures forall n :: n in versions && IsVersionDir(n, versions[n]) && ReleaseOf(versions[n]) != "" ==>
              ReleaseOf(versions[n]) in keep
    ensures latest.Some? ==> latest.value in keep
    ensures forall r :: r in keep ==>
              (latest.Some? && r == latest.value) ||
              exists n :: n in versions && IsVersionDir(n, versions[n]) && ReleaseOf(versions[n]) == r && r != ""
  {
    (set n | n in versions && IsVersionDir(n, versions[n]) && ReleaseOf(versions[n]) != "" :: ReleaseOf(versions[n]))
    + (if latest.Some? then {latest.value} else {})
  }

  /** A cache file modified at `mtime` has outlived `purgeDays` days at `now`. */
  predicate Expired(mtime: int, now: int, purgeDays: int) {
    mtime + purgeDays * SecondsPerDay < now
  }

  /** The keep set once the release cache has been scanned: unexpired
      release files join it. */
  function FinalKeep(keep: set<string>, releases: map<string, int>, now: int, purgeDays: int): set<string> {
    keep + set r | r in releases && r !in keep && !Expired(releases[r], now, purgeDays)
  }

  /** The entries of m whose keys are in s. */
  function Restrict<K, V>(m: map<K, V>, s: set<K>): (r: map<K, V>)
    ensures r.Keys == m.Keys * s
    ensures forall k :: k in r ==> r[k] == m[k]
  {
    map k | k in m && k in s :: m[k]
  }

  lemma RestrictRemove<K, V>(m: map<K, V>, s: set<K>, x: K)
    ensures Restrict(m, s - {x}) == Restrict(m, s) - {x}
  {
    assert Restrict(m, s - {x}).Keys == (Restrict(m, s) - {x}).Keys;
  }

  /** One step of a scan that visits x: the restriction of m to the keys
      still to visit and the kept keys loses x exactly when x is not kept. */
  lemma RestrictStep<K, V>(m: map<K, V>, todo: set<K>, kept: set<K>, x: K)
    requires x in todo
    ensures x in kept ==> Restrict(m, (todo - {x}) + kept) == Restrict(m, todo + kept)
    ensures x !in kept ==> Restrict(m, (todo - {x}) + kept) == Restrict(m, todo + kept) - {x}
  {
    if x in kept {
      assert (todo - {x}) + kept == todo + kept;
    } else {
      assert (todo - {x}) + kept == (todo + kept) - {x};
      RestrictRemove(m, todo + kept, x);
    }
  }

  /** One step of a scan that visits x: the visited part of `chosen`
      gains x exactly when x is chosen. */
  lemma VisitStep<K>(todo: set<K>, chosen: set<K>, x: K)
    requires x in todo
    ensures x in chosen ==> chosen - (todo - {x}) == (chosen - todo) + {x}
    ensures x !in chosen ==> chosen - (todo - {x}) == chosen - todo
  {
  }

  /** A scratch entry t made and then filled replaces whatever was there. */
  lemma ScratchRefilled<K, V>(m: map<K, V>, t: K, e0: V, e1: V)
    ensures (m[t := e0])[t := e1] == m[t := e1]
  {
  }

  /** A scratch entry t made, filled, and removed once s is set, leaves
      only s changed. */
  lemma ScratchUnpacked<K, V>(m: map<K, V>, t: K, s: K, e0: V, e1: V, x: V)
    requires t != s
    ensures ((m[t := e0])[t := e1])[s := x] - {t} == (m - {t})[s := x]
  {
  }

  /** A scratch entry s made, with a second scratch entry f gone, is the
      rest of m once s goes too. */
  lemma ScratchDropped<K, V>(m: map<K, V>, s: K, f: K, e0: V)
    ensures ((m[s := e0]) - {f}) - {s} == m - {s, f}
  {
  }

  /** A scratch entry s made and filled with x, with a second scratch
      entry f gone, then moved onto v as e. */
  lemma ScratchCommitted<K, V>(m: map<K, V>, s: K, f: K, v: K, e0: V, x: V, e: V)
    requires s != v && f != v
    ensures ((((m[s := e0] - {f})[s := x]) - {v}) - {s})[v := e] == (m - {s, f})[v := e]
  {
  }

  lemma MinusStep<K, V>(m: map<K, V>, u: set<K>, x: K)
    ensures (m - u) - {x} == m - (u + {x})
  {
  }

  lemma MergeStep<K, V>(m: map<K, V>, e: map<K, V>, x: K, v: V)
    ensures (m + e)[x := v] == m + e[x := v]
  {
  }

  /** One step of a scan that visits x: base plus the visited part of
      `chosen` gains x exactly when x is chosen. */
  lemma JoinStep<K>(todo: set<K>, base: set<K>, chosen: set<K>, x: K)
    requires x in todo
    ensures x in chosen ==> base + (chosen - (todo - {x})) == base + (chosen - todo) + {x}
    ensures x !in chosen ==> base + (chosen - (todo - {x})) == base + (chosen - todo)
  {
  }

  /** The release cache files purging keeps: those in the keep set and
      those that have not expired. */
  function KeptReleases(releases: map<string, int>, keep: set<string>, now: int, purgeDays: int): set<string> {
    set r | r in releases && (r in keep || !Expired(releases[r], now, purgeDays))
  }

  /** The scratch directory install unpacks into, `.{version}-tmp`. */
  function ScratchName(version: string): string {
    "." + version + "-tmp"
  }

  /** The scratch directory fetch unpacks into, `{tdir}-tmp`. */
  function FetchScratchName(version: string): string {
    ScratchName(version) + "-tmp"
  }

  /** A scratch name starts with '.', so it is never a version name. */
  lemma ScratchNamesDistinct(version: string)
    ensures ScratchName(version) != version && FetchScratchName(version) != version
    ensures ScratchName(version) != FetchScratchName(version)
    ensures !IsDigitName(ScratchName(version)) && !IsDigitName(FetchScratchName(version))
  {
    assert |ScratchName(version)| == |version| + 5;
    assert FetchScratchName(version)[0] == '.';
  }

  /** The last '/'-separated part of s. */
  function AfterLastSlash(s: string): string {
    if s == [] then []
    else if s[|s| - 1] == '/' then []
    else AfterLastSlash(s[..|s| - 1]) + [s[|s| - 1]]
  }

  /** The part after the last '/' holds no '/', ends s, is preceded by a
      '/' when it is not all of s, and is all of s when s has no '/'. */
  lemma {:induction false} AfterLastSlashSuffix(s: string)
    ensures var r := AfterLastSlash(s);
            && '/' !in r && |r| <= |s| && r == s[|s| - |r|..]
            && (|r| < |s| ==> s[|s| - |r| - 1] == '/')
            && ('/' !in s ==> r == s)
  {
    if s != [] && s[|s| - 1] != '/' {
      var t := s[..|s| - 1];
      AfterLastSlashSuffix(t);
      var rt := AfterLastSlash(t);
      assert AfterLastSlash(s) == rt + [s[|s| - 1]];
      assert s == t + [s[|s| - 1]];
      assert s[|s| - |rt| - 1..] == t[|t| - |rt|..] + [s[|s| - 1]];
      assert '/' in t ==> '/' in s;
      assert |rt| < |t| ==> s[|s| - |rt| - 2] == t[|t| - |rt| - 1];
    }
  }

  /** The cache file name of a download URL: the last part of its path. */
  function ArchiveName(url: string): string {
    AfterLastSlash(url)
  }

  /** The metadata install writes. `stripped` is recorded only when
      stripping was not disabled and strip_binaries reports that it ran. */
  function InstallMeta(release: string, distribution: string, noStrip: bool, stripRan: bool): Meta {
    Meta(release, distribution, !noStrip && stripRan)
  }

  /** The URL offered for a distribution; a missing or empty URL is none. */
  function OfferedUrl(arches: map<string, string>, distribution: string): Option<string> {
    if distribution in arches && arches[distribution] != "" then Some(arches[distribution]) else None
  }

  /** How install ends, step by step: an offered URL, the archive cached or
      fetched, unpacked, laid out, and its metadata written. */
  function InstallOutcome(url: Option<string>, cached: bool, fetchOk: bool, unpacked: Option<Tree>,
                          includeSource: bool, writeOk: bool): (r: Option<InstallError>)
    ensures r.None? <==>
              url.Some? && (cached || fetchOk) && unpacked.Some? &&
              InterpreterRoot(unpacked.value, includeSource).Some? && writeOk
    ensures r == Some(FetchFailed) ==> !cached
  {
    if url.None? then Some(NotOffered)
    else if !cached && !fetchOk then Some(FetchFailed)
    else if unpacked.None? then Some(UnpackFailed)
    else if InterpreterRoot(unpacked.value, includeSource).None? then Some(LayoutRaised)
    else if !writeOk then Some(WriteFailed)
    else None
  }

  /** The release cache after remove(version): the release file of the
      removed version, if it records one, is touched (created if need be). */
  function Touched(versions: map<string, Entry>, version: string, releases: map<string, int>, now: int): (r: map<string, int>)
    ensures r.Keys == releases.Keys + (if version in versions && ReleaseOf(versions[version]) != "" then {ReleaseOf(versions[version])} else {})
    ensures forall k :: k in r && (version !in versions || k != ReleaseOf(versions[version])) ==> r[k] == releases[k]
    ensures version in versions && ReleaseOf(versions[version]) != "" ==> r[ReleaseOf(versions[version])] == now
  {
    if version in versions && ReleaseOf(versions[version]) != "" then releases[ReleaseOf(versions[version]) := now]
    else releases
  }

  /** The symlinks update_version_symlinks sees: entries whose names start
      with a digit and that are links, with their targets. */
  function OldLinks(versions: map<string, Entry>): map<string, string> {
    map n | n in versions && IsDigitName(n) && versions[n].Link? :: versions[n].target
  }

  /** One more entry scanned adds at most one old link or one version
      name. */
  lemma ScanAdd(seen: map<string, Entry>, n: string, e: Entry)
    requires n !in seen
    ensures OldLinks(seen[n := e]) ==
              if IsDigitName(n) && e.Link? then OldLinks(seen)[n := e.target] else OldLinks(seen)
    ensures VersionNames(seen[n := e]) ==
              if IsDigitName(n) && !e.Link? then VersionNames(seen) + {n} else VersionNames(seen)
  {
  }

  /** The version names update_version_symlinks sees: entries whose names
      start with a digit and that are not links. */
  function VersionNames(versions: map<string, Entry>): set<string> {
    set n | n in versions && IsDigitName(n) && !versions[n].Link?
  }

  /** The old links update_version_symlinks unlinks: those with no new
      link or a different target. */
  function StaleLinks(oldlinks: map<string, string>, newlinks: map<string, string>): set<string> {
    set n | n in oldlinks && (n !in newlinks || newlinks[n] != oldlinks[n])
  }

  /** The new links update_version_symlinks creates: those with no old
      link or a different target. */
  function MissingLinks(oldlinks: map<string, string>, newlinks: map<string, string>): set<string> {
    set n | n in newlinks && (n !in oldlinks || oldlinks[n] != newlinks[n])
  }

  /** Link entries for the names in s. */
  function LinkEntries(newlinks: map<string, string>, s: set<string>): map<string, Entry> {
    map n | n in s && n in newlinks :: Link(newlinks[n])
  }

  lemma LinkEntriesStep(newlinks: map<string, string>, s: set<string>, n: string)
    requires n in newlinks
    ensures LinkEntries(newlinks, s + {n}) == LinkEntries(newlinks, s)[n := Link(newlinks[n])]
  {
  }

  /** The versions directory once the stale links are gone and the missing
      ones made. */
  function Relinked(versions: map<string, Entry>, newlinks: map<string, string>): map<string, Entry> {
    var oldlinks := OldLinks(versions);
    (versions - StaleLinks(oldlinks, newlinks)) + LinkEntries(newlinks, MissingLinks(oldlinks, newlinks))
  }

  /** After relinking, the symlinks are exactly the new link map, and no
      entry that is not a symlink (nor any entry whose name does not start
      with a digit) has changed, provided no link name is taken by a
      version directory or file. */
  lemma RelinkedLinks(versions: map<string, Entry>, newlinks: map<string, string>)
    requires forall n :: n in newlinks ==> IsDigitName(n)
    requires newlinks.Keys !! VersionNames(versions)
    ensures OldLinks(Relinked(versions, newlinks)) == newlinks
    ensures VersionNames(Relinked(versions, newlinks)) == VersionNames(versions)
    ensures forall n :: n in versions && (!IsDigitName(n) || !versions[n].Link?) ==>
              n in Relinked(versions, newlinks) && Relinked(versions, newlinks)[n] == versions[n]
  {
    var r := Relinked(versions, newlinks);
    var oldlinks := OldLinks(versions);
    forall n | n in newlinks
      ensures n in r && r[n] == Link(newlinks[n])
    {
      if n !in MissingLinks(oldlinks, newlinks) {
        assert n in oldlinks && oldlinks[n] == newlinks[n];
        assert n !in StaleLinks(oldlinks, newlinks);
      }
    }
    assert OldLinks(r).Keys == newlinks.Keys;
    assert VersionNames(r) == VersionNames(versions) by {
      forall n | n in VersionNames(versions)
        ensures n in r && !r[n].Link?
      {
        assert n !in oldlinks && n !in newlinks;
      }
    }
  }

  /** Once the links match the link map, updating them again changes
      nothing: no link is stale and none is missing. */
  lemma SymlinksIdempotent(lt: (string, string) -> bool, versions: map<string, Entry>, newlinks: map<string, string>)
    requires StrictTotalOrder(lt)
    requires IsLinkMap(lt, VersionNames(versions), OldLinks(versions))
    requires IsLinkMap(lt, VersionNames(versions), newlinks)
    ensures StaleLinks(OldLinks(versions), newlinks) == {}
    ensures MissingLinks(OldLinks(versions), newlinks) == {}
    ensures Relinked(versions, newlinks) == versions
  {
    LinkMapUnique(lt, VersionNames(versions), OldLinks(versions), newlinks);
    RelinkedSame(versions);
  }

  /** Relinking to the links already there changes nothing. */
  lemma RelinkedSame(versions: map<string, Entry>)
    ensures StaleLinks(OldLinks(versions), OldLinks(versions)) == {}
    ensures MissingLinks(OldLinks(versions), OldLinks(versions)) == {}
    ensures Relinked(versions, OldLinks(versions)) == versions
  {
    assert LinkEntries(OldLinks(versions), {}) == map[];
    assert versions - {} == versions;
  }

  class Store {
    var versions: map<string, Entry>
    /** Release cache files and their modification times. */
    var releases: map<string, int>
    /** Download directories by release tag, with the archive files in each. */
    var downloads: map<string, set<string>>
    /** The cached latest release tag, stripped, when the file exists. */
    var latest: Option<string>

    constructor (versions: map<string, Entry>, releases: map<string, int>,
                 downloads: map<string, set<string>>, latest: Option<string>)
      ensures this.versions == versions && this.releases == releases
      ensures this.downloads == downloads && this.latest == latest
    {
      this.versions := versions;
      this.releases := releases;
      this.downloads := downloads;
      this.latest := latest;
    }

    /** rm_path on an entry of the versions directory: whatever it is (link,
        file or directory), it goes; the result says whether it was there. */
    method RmPath(name: string) returns (removed: bool)
      modifies this
      ensures removed <==> name in old(versions)
      ensures versions == old(versions) - {name}
      ensures releases == old(releases) && downloads == old(downloads) && latest == old(latest)
    {
      removed := name in versions;
      versions := versions - {name};
    }

    /** remove(version): a present version directory goes, after its
        release's cache file is touched so that it lives a full purge
        period. An absent version is left alone. */
    method Remove(version: string, now: int)
      requires version !in versions || versions[version].Dir?
      modifies this
      ensures versions == old(versions) - {version}
      ensures releases == Touched(old(versions), version, old(releases), now)
      ensures downloads == old(downloads) && latest == old(latest)
    {
      if version !in versions {
        return;
      }
      var release := ReleaseOf(versions[version]);
      if release != "" {
        releases := releases[release := now];
      }
      versions := versions - {version};
    }

    /** keeplist(): the releases to keep. */
    method Keeplist() returns (keep: set<string>)
      ensures keep == KeepSet(versions, latest)
    {
      keep := {};
      var todo := versions.Keys;
      while todo != {}
        invariant todo <= versions.Keys
        invariant keep == set n | n in versions.Keys - todo && IsVersionDir(n, versions[n]) && ReleaseOf(versions[n]) != "" :: ReleaseOf(versions[n])
        decreases |todo|
      {
        var n :| n in todo;
        if IsVersionDir(n, versions[n]) {
          var release := ReleaseOf(versions[n]);
          if release != "" {
            keep := keep + {release};
          }
        }
        todo := todo - {n};
      }
      if latest.Some? {
        keep := keep + {latest.value};
      }
    }

    /** The first half of purge_unused_releases: a release cache file
        outside `keep` that has expired is deleted, an unexpired one joins
        the keep set, which is returned. */
    method PurgeReleaseCache(keep0: set<string>, now: int, purgeDays: int) returns (keep: set<string>)
      modifies this
      ensures releases == Restrict(old(releases), KeptReleases(old(releases), keep0, now, purgeDays))
      ensures keep == FinalKeep(keep0, old(releases), now, purgeDays)
      ensures versions == old(versions) && downloads == old(downloads) && latest == old(latest)
    {
      keep := keep0;
      var cached := releases;
      var remaining := cached;
      ghost var kept := KeptReleases(cached, keep0, now, purgeDays);
      ghost var unexpired := set r | r in cached && r !in keep0 && !Expired(cached[r], now, purgeDays);
      var todo := cached.Keys;
      while todo != {}
        invariant todo <= cached.Keys
        invariant remaining == Restrict(cached, todo + kept)
        invariant keep == keep0 + (unexpired - todo)
        modifies {}
        decreases |todo|
      {
        var r :| r in todo;
        RestrictStep(cached, todo, kept, r);
        JoinStep(todo, keep0, unexpired, r);
        if r !in keep {
          if Expired(cached[r], now, purgeDays) {
            remaining := remaining - {r};
          } else {
            keep := keep + {r};
          }
        }
        todo := todo - {r};
      }
      releases := remaining;
      assert keep == keep0 + unexpired;
    }

    /** The second half of purge_unused_releases: every download directory
        whose release is outside `keep` is deleted. */
    method PurgeDownloads(keep: set<string>)
      modifies this
      ensures downloads == Restrict(old(downloads), keep)
      ensures versions == old(versions) && releases == old(releases) && latest == old(latest)
    {
      var dirs := downloads;
      var remaining := dirs;
      var left := dirs.Keys;
      while left != {}
        invariant left <= dirs.Keys
        invariant remaining == Restrict(dirs, left + keep)
        modifies {}
        decreases |left|
      {
        var d :| d in left;
        RestrictStep(dirs, left, keep, d);
        if d !in keep {
          remaining := remaining - {d};
        }
        left := left - {d};
      }
      downloads := remaining;
      assert left + keep == keep;
    }

    /** purge_unused_releases: release cache files outside the keep set
        that have expired are deleted, then every download directory of a
        release neither kept nor still cached unexpired. */
    method PurgeUnusedReleases(now: int, purgeDays: int)
      modifies this
      ensures var keep := KeepSet(old(versions), old(latest));
              releases == Restrict(old(releases), KeptReleases(old(releases), keep, now, purgeDays))
      ensures var keep := FinalKeep(KeepSet(old(versions), old(latest)), old(releases), now, purgeDays);
              downloads == Restrict(old(downloads), keep)
      ensures versions == old(versions) && latest == old(latest)
    {
      var keep := Keeplist();
      keep := PurgeReleaseCache(keep, now, purgeDays);
      PurgeDownloads(keep);
    }

    /** fetch(release, url, tdir): the archive is fetched into the downloads
        cache unless it is there already, unpacked into the scratch
        directory `{tdir}-tmp`, and its interpreter tree moved onto `tdir`,
        which must be the empty directory install made. A failed fetch
        deletes the cache file; a failed unpack keeps it. The fetch scratch
        directory is gone on every return; on LayoutRaised the source raises
        out of fetch and both scratch directories stay, the fetch scratch
        directory holding the unpacked tree as the moves made before the
        raise left it. */
    method Fetch(version: string, release: string, url: string, includeSource: bool,
                 fetchOk: bool, unpacked: Option<Tree>) returns (err: Option<InstallError>)
      requires ScratchName(version) in versions && versions[ScratchName(version)] == Dir(None, map[])
      modifies this
      ensures var d := if release in old(downloads) then old(downloads)[release] else {};
              var cached := ArchiveName(url) in d;
              && err == InstallOutcome(Some(url), cached, fetchOk, unpacked, includeSource, true)
              && downloads == old(downloads)[release := if err == Some(FetchFailed) then d else d + {ArchiveName(url)}]
      ensures err == Some(LayoutRaised) ==>
                exists moved :: SafeMoves(unpacked.value, includeSource, moved) &&
                  versions == old(versions)[FetchScratchName(version) := Dir(None, Leftover(unpacked.value, includeSource, moved))]
      ensures err.Some? && err != Some(LayoutRaised) ==>
                versions == old(versions) - {FetchScratchName(version)}
      ensures err.None? ==>
                versions == (old(versions) - {FetchScratchName(version)})
                              [ScratchName(version) := Dir(None, InterpreterRoot(unpacked.value, includeSource).value)]
      ensures releases == old(releases) && latest == old(latest)
    {
      var tdir := ScratchName(version);
      var tmp := FetchScratchName(version);
      ScratchNamesDistinct(version);
      ghost var v0 := versions;
      MakeScratch(tmp);
      var ok := CacheArchive(release, ArchiveName(url), fetchOk);
      if !ok {
        err := Some(FetchFailed);
      } else if unpacked.None? {
        err := Some(UnpackFailed);
      } else {
        versions := versions[tmp := Dir(None, unpacked.value)];
        var root := InterpreterRoot(unpacked.value, includeSource);
        if root.None? {
          // The entries moved before the move that raises depend on the
          // order the directory lists them in.
          assert SafeMoves(unpacked.value, includeSource, {});
          var moved: set<string> :| SafeMoves(unpacked.value, includeSource, moved);
          var left := Dir(None, Leftover(unpacked.value, includeSource, moved));
          assert versions == v0[tmp := Dir(None, map[])][tmp := Dir(None, unpacked.value)];
          versions := versions[tmp := left];
          ScratchRefilled(v0[tmp := Dir(None, map[])], tmp, Dir(None, unpacked.value), left);
          ScratchRefilled(v0, tmp, Dir(None, map[]), left);
          return Some(LayoutRaised);
        }
        err := None;
        versions := versions[tdir := Dir(None, root.value)];
        ScratchUnpacked(v0, tmp, tdir, Dir(None, map[]), Dir(None, unpacked.value), Dir(None, root.value));
      }
      var _ := RmPath(tmp);
    }

    /** The download step of fetch: the archive is fetched into the
        release's download directory (created if need be) unless it is
        cached there; a failed fetch leaves no file behind. */
    method CacheArchive(release: string, filename: string, fetchOk: bool) returns (ok: bool)
      modifies this
      ensures var d := if release in old(downloads) then old(downloads)[release] else {};
              && (ok <==> filename in d || fetchOk)
              && downloads == old(downloads)[release := if ok then d + {filename} else d]
      ensures versions == old(versions) && releases == old(releases) && latest == old(latest)
    {
      ghost var d := if release in downloads then downloads[release] else {};
      if release !in downloads {
        downloads := downloads[release := {}];
      }
      ok := true;
      if filename !in downloads[release] {
        if fetchOk {
          downloads := downloads[release := downloads[release] + {filename}];
        } else {
          ok := false;
          assert downloads[release] - {filename} == d;
          downloads := downloads[release := downloads[release] - {filename}];
        }
      } else {
        assert d + {filename} == d;
      }
    }

    /** The last step of install: the old version is removed (touching
        its release file) and the scratch directory takes its place. */
    method ReplaceVersion(version: string, tmpdir: string, now: int)
      requires tmpdir != version && tmpdir in versions
      requires version !in versions || versions[version].Dir?
      modifies this
      ensures versions == ((old(versions) - {version}) - {tmpdir})[version := old(versions)[tmpdir]]
      ensures releases == Touched(old(versions), version, old(releases), now)
      ensures downloads == old(downloads) && latest == old(latest)
    {
      var installed := versions[tmpdir];
      Remove(version, now);
      versions := (versions - {tmpdir})[version := installed];
    }

    /** install(vdir, release, distribution, files): installs `version`
        from the URL `files[version][distribution]`; a distribution with no
        URL is refused before anything changes. */
    method Install(version: string, release: string, distribution: string,
                   files: map<string, map<string, string>>, includeSource: bool, noStrip: bool,
                   fetchOk: bool, unpacked: Option<Tree>, stripRan: bool, writeOk: bool, now: int)
      returns (err: Option<InstallError>)
      requires version in files
      requires version !in versions || versions[version].Dir?
      modifies this
      ensures var url := OfferedUrl(files[version], distribution);
              var d := if release in old(downloads) then old(downloads)[release] else {};
              err == InstallOutcome(url, url.Some? && ArchiveName(url.value) in d, fetchOk, unpacked, includeSource, writeOk)
      ensures err == Some(NotOffered) ==>
                versions == old(versions) && downloads == old(downloads) && releases == old(releases)
      ensures err != Some(NotOffered) ==>
                var url := OfferedUrl(files[version], distribution).value;
                var d := if release in old(downloads) then old(downloads)[release] else {};
                downloads == old(downloads)[release := if err == Some(FetchFailed) then d else d + {ArchiveName(url)}]
      ensures err == Some(LayoutRaised) ==>
                exists moved :: SafeMoves(unpacked.value, includeSource, moved) &&
                  versions == old(versions)[ScratchName(version) := Dir(None, map[])]
                                           [FetchScratchName(version) := Dir(None, Leftover(unpacked.value, includeSource, moved))]
      ensures err.Some? && err != Some(NotOffered) && err != Some(LayoutRaised) ==>
                versions == old(versions) - {ScratchName(version), FetchScratchName(version)}
      ensures err != None ==> releases == old(releases)
      ensures err.None? ==>
                && versions == (old(versions) - {ScratchName(version), FetchScratchName(version)})
                                 [version := Dir(Some(InstallMeta(release, distribution, noStrip, stripRan)),
                                                 InterpreterRoot(unpacked.value, includeSource).value)]
                && releases == Touched(old(versions), version, old(releases), now)
      ensures latest == old(latest)
    {
      var url := OfferedUrl(files[version], distribution);
      if url.None? {
        return Some(NotOffered);
      }
      var meta := InstallMeta(release, distribution, noStrip, stripRan);
      err := InstallFrom(version, release, url.value, meta, includeSource, fetchOk, unpacked, writeOk, now);
    }

    /** The body of install once a URL is offered. The target entry is
        replaced only when every step succeeds; then the old version is
        removed first (touching its release file). On every other return
        but LayoutRaised both scratch directories are gone and the target
        is as it was. */
    method InstallFrom(version: string, release: string, url: string, meta: Meta, includeSource: bool,
                       fetchOk: bool, unpacked: Option<Tree>, writeOk: bool, now: int)
      returns (err: Option<InstallError>)
      requires version !in versions || versions[version].Dir?
      modifies this
      ensures var d := if release in old(downloads) then old(downloads)[release] else {};
              && err == InstallOutcome(Some(url), ArchiveName(url) in d, fetchOk, unpacked, includeSource, writeOk)
              && downloads == old(downloads)[release := if err == Some(FetchFailed) then d else d + {ArchiveName(url)}]
      ensures err == Some(LayoutRaised) ==>
                exists moved :: SafeMoves(unpacked.value, includeSource, moved) &&
                  versions == old(versions)[ScratchName(version) := Dir(None, map[])]
                                           [FetchScratchName(version) := Dir(None, Leftover(unpacked.value, includeSource, moved))]
      ensures err.Some? && err != Some(LayoutRaised) ==>
                versions == old(versions) - {ScratchName(version), FetchScratchName(version)}
      ensures err != None ==> releases == old(releases)
      ensures err.None? ==>
                && versions == (old(versions) - {ScratchName(version), FetchScratchName(version)})
                                 [version := Dir(Some(meta), InterpreterRoot(unpacked.value, includeSource).value)]
                && releases == Touched(old(versions), version, old(releases), now)
      ensures latest == old(latest)
    {
      var tmpdir := ScratchName(version);
      ghost var fetchdir := FetchScratchName(version);
      ScratchNamesDistinct(version);
      MakeScratch(tmpdir);
      err := Fetch(version, release, url, includeSource, fetchOk, unpacked);
      if err == Some(LayoutRaised) {
        return;
      }
      if err.Some? {
        versions := versions - {tmpdir};
        ScratchDropped(old(versions), tmpdir, fetchdir, Dir(None, map[]));
      } else {
        ghost var tree := InterpreterRoot(unpacked.value, includeSource).value;
        assert Touched(versions, version, releases, now) == Touched(old(versions), version, old(releases), now);
        err := Commit(version, tmpdir, meta, writeOk, now);
        ScratchCommitted(old(versions), tmpdir, fetchdir, version, Dir(None, map[]), Dir(None, tree), Dir(Some(meta), tree));
      }
    }

    /** rm_path(tmpdir) followed by tmpdir.mkdir(): an empty scratch
        directory, whatever was there before. */
    method MakeScratch(name: string)
      modifies this
      ensures versions == old(versions)[name := Dir(None, map[])]
      ensures releases == old(releases) && downloads == old(downloads) && latest == old(latest)
    {
      var _ := RmPath(name);
      versions := versions[name := Dir(None, map[])];
    }

    /** The end of install after a good fetch: the metadata is written into
        the scratch directory; if that fails the scratch directory is
        deleted, otherwise the old version is removed (touching its release
        file) and the scratch directory takes its place. */
    method Commit(version: string, tmpdir: string, meta: Meta, writeOk: bool, now: int) returns (err: Option<InstallError>)
      requires tmpdir != version && tmpdir in versions && versions[tmpdir].Dir?
      requires version !in versions || versions[version].Dir?
      modifies this
      ensures err == if writeOk then None else Some(WriteFailed)
      ensures !writeOk ==> versions == old(versions) - {tmpdir} && releases == old(releases)
      ensures writeOk ==>
                && versions == ((old(versions) - {version}) - {tmpdir})[version := Dir(Some(meta), old(versions)[tmpdir].tree)]
                && releases == Touched(old(versions), version, old(releases), now)
      ensures downloads == old(downloads) && latest == old(latest)
    {
      if !writeOk {
        versions := versions - {tmpdir};
        return Some(WriteFailed);
      }
      versions := versions[tmpdir := Dir(Some(meta), versions[tmpdir].tree)];
      ReplaceVersion(version, tmpdir, now);
      err := None;
    }

    /** The scan of update_version_symlinks: the symlinks among the
        digit-named entries, with their targets, and the names of the rest. */
    method ScanVersions() returns (oldlinks: map<string, string>, vers: set<string>)
      ensures oldlinks == OldLinks(versions)
      ensures vers == VersionNames(versions)
    {
      oldlinks := map[];
      vers := {};
      var todo := versions.Keys;
      while todo != {}
        invariant todo <= versions.Keys
        invariant oldlinks == OldLinks(versions - todo)
        invariant vers == VersionNames(versions - todo)
        decreases |todo|
      {
        var n :| n in todo;
        ghost var seen := versions - (todo - {n});
        assert seen == (versions - todo)[n := versions[n]];
        ScanAdd(versions - todo, n, versions[n]);
        if IsDigitName(n) {
          if versions[n].Link? {
            oldlinks := oldlinks[n := versions[n].target];
          } else {
            vers := vers + {n};
          }
        }
        todo := todo - {n};
      }
      assert versions - todo == versions;
    }

    /** The unlinking loop of update_version_symlinks. */
    method UnlinkStale(oldlinks: map<string, string>, newlinks: map<string, string>) returns (unlinked: set<string>)
      modifies this
      ensures unlinked == StaleLinks(oldlinks, newlinks)
      ensures versions == old(versions) - unlinked
      ensures releases == old(releases) && downloads == old(downloads) && latest == old(latest)
    {
      var entries := versions;
      ghost var stale := StaleLinks(oldlinks, newlinks);
      unlinked := {};
      var todo := oldlinks.Keys;
      while todo != {}
        invariant todo <= oldlinks.Keys
        invariant unlinked == stale - todo
        invariant entries == versions - unlinked
        modifies {}
        decreases |todo|
      {
        var n :| n in todo;
        VisitStep(todo, stale, n);
        if n !in newlinks || newlinks[n] != oldlinks[n] {
          MinusStep(versions, unlinked, n);
          entries := entries - {n};
          unlinked := unlinked + {n};
        }
        todo := todo - {n};
      }
      assert unlinked == stale;
      versions := entries;
    }

    /** The linking loop of update_version_symlinks. */
    method CreateMissing(oldlinks: map<string, string>, newlinks: map<string, string>) returns (created: set<string>)
      modifies this
      ensures created == MissingLinks(oldlinks, newlinks)
      ensures versions == old(versions) + LinkEntries(newlinks, created)
      ensures releases == old(releases) && downloads == old(downloads) && latest == old(latest)
    {
      var entries := versions;
      ghost var missing := MissingLinks(oldlinks, newlinks);
      ghost var made: map<string, Entry> := map[];
      created := {};
      var left := newlinks.Keys;
      while left != {}
        invariant left <= newlinks.Keys
        invariant created == missing - left
        invariant made == LinkEntries(newlinks, created)
        invariant entries == versions + made
        modifies {}
        decreases |left|
      {
        var n :| n in left;
        VisitStep(left, missing, n);
        if n !in oldlinks || oldlinks[n] != newlinks[n] {
          LinkEntriesStep(newlinks, created, n);
          MergeStep(versions, made, n, Link(newlinks[n]));
          entries := entries[n := Link(newlinks[n])];
          made := made[n := Link(newlinks[n])];
          created := created + {n};
        }
        left := left - {n};
      }
      assert created == missing;
      versions := entries;
    }

    /** update_version_symlinks: every old link that is stale goes, and
        every missing link to the newest candidate is made. Afterwards the
        links are exactly the link map of the version names. */
    method UpdateVersionSymlinks(lt: (string, string) -> bool)
      returns (newlinks: map<string, string>, unlinked: set<string>, created: set<string>)
      requires StrictTotalOrder(lt)
      requires LinkNames(VersionNames(versions)) !! VersionNames(versions)
      modifies this
      ensures IsLinkMap(lt, VersionNames(old(versions)), newlinks)
      ensures unlinked == StaleLinks(OldLinks(old(versions)), newlinks)
      ensures created == MissingLinks(OldLinks(old(versions)), newlinks)
      ensures versions == Relinked(old(versions), newlinks)
      ensures OldLinks(versions) == newlinks && VersionNames(versions) == VersionNames(old(versions))
      ensures forall n :: n in old(versions) && !old(versions)[n].Link? ==> n in versions && versions[n] == old(versions)[n]
      ensures releases == old(releases) && downloads == old(downloads) && latest == old(latest)
    {
      var oldlinks, vers := ScanVersions();
      newlinks := NewLinks(vers, lt);
      LinkNamesDigit(vers);
      unlinked := UnlinkStale(oldlinks, newlinks);
      created := CreateMissing(oldlinks, newlinks);
      RelinkedLinks(old(versions), newlinks);
    }
  }
}
