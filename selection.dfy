/** Which installed versions a command acts on (get_version_names), and
    what `update` does with each of them (the guard chain of update_.run). */
module Selection {
  import opened Wrappers
  import opened Versions
  import opened Matcher
  import opened Store

  /** The usage errors of get_version_names, and the versions it cannot
      find among those installed. */
  datatype SelectError = AllWithVersions | SkipWithoutAll | NoVersions | NotFound(missing: set<string>)

  /** `matcher.match(v) or v`: a name resolved against the installed
      names, kept as given when nothing matches. */
  function Resolve(sorted: seq<string>, v: string): (r: string)
    ensures r == v || (r in sorted && r != "")
    ensures v != "" && v in sorted ==> r == v
  {
    match Match(sorted, Some(v), false)
    case Some(m) => m
    case None => v
  }

  /** The installed names a spec may resolve to when it is not itself
      installed: the formal releases for an empty spec, otherwise those the
      matcher accepts. */
  ghost function Accepted(names: set<string>, v: string): set<string> {
    if v == "" then set c | c in names && IsReleaseVersion(c)
    else set c | c in names && Accepts(v, false, c)
  }

  /** x is what v names among the installed versions: v itself when it is
      installed, otherwise the greatest name it accepts. */
  ghost predicate Denotes(lt: (string, string) -> bool, names: set<string>, v: string, x: string) {
    if v != "" && v in names then x == v else IsGreatest(lt, x, Accepted(names, v))
  }

  /** Resolving against the installed names, greatest first, finds an
      installed name exactly when v is installed or accepts one, and then
      it is the name v denotes. */
  lemma ResolveDenotes(lt: (string, string) -> bool, sorted: seq<string>, names: set<string>, v: string)
    requires SortedDesc(lt, sorted)
    requires forall x :: x in sorted <==> x in names
    requires "" !in names
    ensures Resolve(sorted, v) in names <==> v in names || Accepted(names, v) != {}
    ensures Resolve(sorted, v) in names ==> Denotes(lt, names, v, Resolve(sorted, v))
    ensures Resolve(sorted, v) !in names ==> Resolve(sorted, v) == v
  {
    if v == "" {
      LatestRelease(lt, sorted, false);
      assert Match(sorted, Some(v), false) == Match(sorted, None, false);
      if Match(sorted, None, false).None? {
        assert Accepted(names, v) == {};
      } else {
        assert (set x | x in sorted && IsReleaseVersion(x)) == Accepted(names, v);
      }
    } else if v !in names {
      assert v !in sorted;
      GreatestAccepted(lt, sorted, v, false);
      if Match(sorted, Some(v), false).None? {
        assert Accepted(names, v) == {};
      } else {
        assert (set x | x in sorted && Accepts(v, false, x)) == Accepted(names, v);
      }
    }
  }

  /** Under a strict total order a spec denotes at most one name. */
  lemma DenotesUnique(lt: (string, string) -> bool, names: set<string>, v: string, x: string, y: string)
    requires StrictTotalOrder(lt)
    requires Denotes(lt, names, v, x) && Denotes(lt, names, v, y)
    ensures x == y
  {
    if !(v != "" && v in names) {
      GreatestUnique(lt, x, y, Accepted(names, v));
    }
  }

  /** A spec nothing installed answers to. */
  ghost predicate Unknown(names: set<string>, v: string) {
    v !in names && Accepted(names, v) == {}
  }

  /** The flag combinations get_version_names refuses, in its order. */
  function FlagError(all: bool, skip: bool, specs: seq<string>): Option<SelectError> {
    if all && !skip && specs != [] then Some(AllWithVersions)
    else if !all && skip then Some(SkipWithoutAll)
    else if !all && specs == [] then Some(NoVersions)
    else None
  }

  /** `--all` without a version, `--all --skip` with versions, or at least
      one version without `--all` are the accepted combinations. */
  lemma FlagsAccepted(all: bool, skip: bool, specs: seq<string>)
    ensures FlagError(all, skip, specs).None? <==>
              (all && (skip || specs == [])) || (!all && !skip && specs != [])
  {
  }

  /** The list comprehension of get_version_names: every spec resolved. */
  function ResolveAll(sorted: seq<string>, specs: seq<string>): (r: seq<string>)
    ensures |r| == |specs|
    ensures forall i :: 0 <= i < |specs| ==> r[i] == Resolve(sorted, specs[i])
  {
    if specs == [] then [] else [Resolve(sorted, specs[0])] + ResolveAll(sorted, specs[1..])
  }

  /** Every resolved spec is the name it denotes, or is itself and
      unknown. */
  lemma ResolveAllDenotes(lt: (string, string) -> bool, sorted: seq<string>, names: set<string>, specs: seq<string>)
    requires SortedDesc(lt, sorted)
    requires forall x :: x in sorted <==> x in names
    requires "" !in names
    ensures var r := ResolveAll(sorted, specs);
            forall i :: 0 <= i < |specs| ==>
              && (r[i] in names ==> Denotes(lt, names, specs[i], r[i]))
              && (r[i] !in names <==> Unknown(names, specs[i]))
              && (r[i] !in names ==> r[i] == specs[i])
  {
    forall i | 0 <= i < |specs| {
      ResolveDenotes(lt, sorted, names, specs[i]);
    }
  }

  /** The unknown names get_version_names reports are the unknown specs. */
  lemma UnknownReported(lt: (string, string) -> bool, sorted: seq<string>, names: set<string>, specs: seq<string>)
    requires SortedDesc(lt, sorted)
    requires forall x :: x in sorted <==> x in names
    requires "" !in names
    ensures var r := ResolveAll(sorted, specs);
            forall v :: v in r && v !in names <==> v in specs && Unknown(names, v)
  {
    var r := ResolveAll(sorted, specs);
    ResolveAllDenotes(lt, sorted, names, specs);
    forall v
      ensures v in r && v !in names <==> v in specs && Unknown(names, v)
    {
      if v in specs && Unknown(names, v) {
        var i :| 0 <= i < |specs| && specs[i] == v;
        assert r[i] == v;
      }
    }
  }

  /** The installed names not given are those no spec denotes. */
  lemma NotGiven(lt: (string, string) -> bool, sorted: seq<string>, names: set<string>, specs: seq<string>, x: string)
    requires StrictTotalOrder(lt)
    requires SortedDesc(lt, sorted)
    requires forall x :: x in sorted <==> x in names
    requires "" !in names
    ensures x in names && x !in ResolveAll(sorted, specs) <==>
              x in names && forall i :: 0 <= i < |specs| ==> !Denotes(lt, names, specs[i], x)
  {
    var r := ResolveAll(sorted, specs);
    ResolveAllDenotes(lt, sorted, names, specs);
    if x in r && x in names {
      var i :| 0 <= i < |specs| && r[i] == x;
      assert Denotes(lt, names, specs[i], x);
    }
    forall i | 0 <= i < |specs| && x in names && Denotes(lt, names, specs[i], x)
      ensures x in r
    {
      if r[i] !in names {
        assert Accepted(names, specs[i]) == {};
      } else {
        DenotesUnique(lt, names, specs[i], x, r[i]);
      }
    }
  }

  /** `sorted(names, key=parse_version)`: the names, each once, smallest
      first. */
  method SortAscending(names: set<string>, lt: (string, string) -> bool) returns (r: seq<string>)
    requires StrictTotalOrder(lt)
    ensures forall x :: x in r <==> x in names
    ensures forall i, j :: 0 <= i < j < |r| ==> lt(r[i], r[j])
  {
    var desc := SortDescending(names, lt);
    r := Reverse(desc);
    forall x
      ensures x in r <==> x in desc
    {
      if x in desc {
        var j :| 0 <= j < |desc| && desc[j] == x;
        assert r[|desc| - 1 - j] == x;
      }
    }
    forall i, j | 0 <= i < j < |r|
      ensures lt(r[i], r[j])
    {
      assert r[i] == desc[|desc| - 1 - i];
    }
  }

  /** get_version_names: the flags are checked, each spec is resolved
      against the installed names, and any that resolve to nothing
      installed are reported together. Without `--all` the resolved names
      are returned in the order given; with `--all` every installed name
      not given is returned, oldest first. */
  method GetVersionNames(all: bool, skip: bool, specs: seq<string>, names: set<string>,
                         lt: (string, string) -> bool)
    returns (r: Result<seq<string>, SelectError>)
    requires StrictTotalOrder(lt)
    requires forall n :: n in names ==> IsDigitName(n)
    ensures FlagError(all, skip, specs).Some? ==> r == Err(FlagError(all, skip, specs).value)
    ensures FlagError(all, skip, specs).None? ==>
              (r.Err? <==> exists v :: v in specs && Unknown(names, v))
    ensures r.Err? && r.error.NotFound? ==>
              forall v :: v in r.error.missing <==> v in specs && Unknown(names, v)
    ensures r.Ok? && !all ==>
              && |r.value| == |specs|
              && forall i :: 0 <= i < |specs| ==> r.value[i] in names && Denotes(lt, names, specs[i], r.value[i])
    ensures r.Ok? && all ==>
              && (forall x :: x in r.value <==>
                    x in names && forall i :: 0 <= i < |specs| ==> !Denotes(lt, names, specs[i], x))
              && forall i, j :: 0 <= i < j < |r.value| ==> lt(r.value[i], r.value[j])
  {
    var flags := FlagError(all, skip, specs);
    if flags.Some? {
      return Err(flags.value);
    }
    assert !IsDigitName("");
    var sorted := SortDescending(names, lt);
    var versions := ResolveAll(sorted, specs);
    var unknown := set v | v in versions && v !in names;
    UnknownReported(lt, sorted, names, specs);
    if unknown != {} {
      var v :| v in unknown;
      assert v in specs && Unknown(names, v);
      return Err(NotFound(unknown));
    }
    forall v | v in specs
      ensures !Unknown(names, v)
    {
      assert v !in unknown;
    }
    ResolveAllDenotes(lt, sorted, names, specs);
    if !all {
      forall i | 0 <= i < |specs|
        ensures versions[i] in names
      {
        assert versions[i] in versions && versions[i] !in unknown;
      }
      return Ok(versions);
    }
    var given := set v | v in versions;
    var rest := SortAscending(names - given, lt);
    forall x
      ensures x in rest <==> x in names && forall i :: 0 <= i < |specs| ==> !Denotes(lt, names, specs[i], x)
    {
      NotGiven(lt, sorted, names, specs, x);
    }
    return Ok(rest);
  }

  // ---------------------------------------------------------------------
  // update_.run: what happens to one installed version.

  /** Why update leaves a version alone. */
  datatype SkipReason =
    | NoData          // no readable metadata file
    | Current         // already installed from the target release
    | NoMatch         // the target release offers nothing it may upgrade to
    | NoDistribution  // no recorded distribution, or the match is not built for it
    | NoRelease       // no recorded release
    | Occupied        // the newer version is already installed

  /** The outcome for one version: left alone, refused because `--keep`
      would be defeated, or installed from the target release as `nextver`
      (the old version then removed when `removeOld`). */
  datatype Decision =
    | Skip(reason: SkipReason)
    | WouldNotKeep
    | Upgrade(nextver: string, distribution: string, includeSource: bool, removeOld: bool)

  /** The guard chain of update_.run for one version. `offered` is the
      target release's version names, greatest first; `present` the names
      that exist in the versions directory; `hasSource` whether the
      version has a `src` directory. */
  function UpdateDecision(version: string, meta: Option<Meta>, target: string, offered: seq<string>,
                          files: map<string, map<string, string>>, keep: bool, present: set<string>,
                          hasSource: bool): (d: Decision)
    ensures d == Skip(NoData) <==> meta.None?
    ensures d == Skip(Current) <==> meta.Some? && meta.value.release == target
    ensures d.Upgrade? ==> d.nextver in offered && d.distribution == meta.value.distribution
  {
    if meta.None? then Skip(NoData)
    else if meta.value.release == target then Skip(Current)
    else
      match Match(offered, Some(version), true)
      case None => Skip(NoMatch)
      case Some(nextver) =>
        var distribution := meta.value.distribution;
        if distribution == "" || nextver !in files || distribution !in files[nextver] then Skip(NoDistribution)
        else if nextver == version && keep && meta.value.release != "" then WouldNotKeep
        else if meta.value.release == "" then Skip(NoRelease)
        else if nextver != version && nextver in present then Skip(Occupied)
        else Upgrade(nextver, distribution, hasSource, nextver != version && !keep)
  }

  /** An upgrade installs a version the target release offers, built for
      the distribution the old version recorded, over a version that
      recorded another release. */
  lemma UpgradeOffered(version: string, meta: Option<Meta>, target: string, offered: seq<string>,
                       files: map<string, map<string, string>>, keep: bool, present: set<string>, hasSource: bool)
    requires UpdateDecision(version, meta, target, offered, files, keep, present, hasSource).Upgrade?
    ensures var d := UpdateDecision(version, meta, target, offered, files, keep, present, hasSource);
            && meta.Some? && meta.value.release != "" && meta.value.release != target
            && d.nextver in offered && d.nextver in files
            && d.distribution == meta.value.distribution && d.distribution in files[d.nextver]
            && d.includeSource == hasSource
  {
  }

  /** An upgrade to another version never lands on a name already in the
      versions directory. */
  lemma UpgradeNeverClobbers(version: string, meta: Option<Meta>, target: string, offered: seq<string>,
                             files: map<string, map<string, string>>, keep: bool, present: set<string>, hasSource: bool)
    requires var d := UpdateDecision(version, meta, target, offered, files, keep, present, hasSource);
             d.Upgrade? && d.nextver != version
    ensures UpdateDecision(version, meta, target, offered, files, keep, present, hasSource).nextver !in present
  {
  }

  /** An upgrade stays within the version's minor series (its prefix up to
      the last '.'), and a formal release only moves to a formal release. */
  lemma UpgradeStaysInSeries(version: string, meta: Option<Meta>, target: string, offered: seq<string>,
                             files: map<string, map<string, string>>, keep: bool, present: set<string>, hasSource: bool)
    requires version != ""
    requires var d := UpdateDecision(version, meta, target, offered, files, keep, present, hasSource);
             d.Upgrade? && d.nextver != version
    ensures var d := UpdateDecision(version, meta, target, offered, files, keep, present, hasSource);
            && TrialPrefix(version, true) <= d.nextver
            && (IsReleaseVersion(version) ==> IsReleaseVersion(d.nextver))
  {
    var m := Match(offered, Some(version), true);
    assert m.Some? && m.value == UpdateDecision(version, meta, target, offered, files, keep, present, hasSource).nextver;
  }

  /** The upgrade goes to the newest version the release offers that the
      old version accepts. */
  lemma UpgradeNewest(lt: (string, string) -> bool, version: string, meta: Option<Meta>, target: string,
                      offered: seq<string>, files: map<string, map<string, string>>, keep: bool,
                      present: set<string>, hasSource: bool)
    requires SortedDesc(lt, offered)
    requires version != "" && version !in offered
    requires UpdateDecision(version, meta, target, offered, files, keep, present, hasSource).Upgrade?
    ensures IsGreatest(lt, UpdateDecision(version, meta, target, offered, files, keep, present, hasSource).nextver,
                       set c | c in offered && Accepts(version, true, c))
  {
    GreatestAccepted(lt, offered, version, true);
    var m := Match(offered, Some(version), true);
    assert m.Some? && m.value == UpdateDecision(version, meta, target, offered, files, keep, present, hasSource).nextver;
  }

  /** With `--keep` an upgrade never removes the old version, and a version
      the release offers again is refused rather than reinstalled over
      itself. */
  lemma KeepRespected(version: string, meta: Option<Meta>, target: string, offered: seq<string>,
                      files: map<string, map<string, string>>, present: set<string>, hasSource: bool)
    requires version != ""
    ensures var d := UpdateDecision(version, meta, target, offered, files, true, present, hasSource);
            && (d.Upgrade? ==> !d.removeOld && d.nextver != version)
            && (d == WouldNotKeep <==>
                  meta.Some? && meta.value.release != "" && meta.value.release != target && version in offered &&
                  meta.value.distribution != "" && version in files && meta.value.distribution in files[version])
  {
  }

  /** Without `--keep`, a version the target release offers again is
      reinstalled as itself, and a version moved to another name is
      removed. */
  lemma ReinstallWithoutKeep(version: string, meta: Option<Meta>, target: string, offered: seq<string>,
                             files: map<string, map<string, string>>, present: set<string>, hasSource: bool)
    requires version != "" && version in offered
    requires meta.Some? && meta.value.release != "" && meta.value.release != target
    requires meta.value.distribution != "" && version in files && meta.value.distribution in files[version]
    ensures UpdateDecision(version, meta, target, offered, files, false, present, hasSource) ==
              Upgrade(version, meta.value.distribution, hasSource, false)
  {
  }

  /** A version already installed from the target release is left alone. */
  lemma CurrentLeftAlone(version: string, meta: Option<Meta>, target: string, offered: seq<string>,
                         files: map<string, map<string, string>>, keep: bool, present: set<string>, hasSource: bool)
    requires meta.Some? && meta.value.release == target
    ensures UpdateDecision(version, meta, target, offered, files, keep, present, hasSource) == Skip(Current)
  {
  }
}
