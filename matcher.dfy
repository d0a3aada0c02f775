/** VersionMatcher: resolving a full or partial version name against the
    candidate names of a release (or of the installed versions), which the
    matcher keeps greatest first. */
module Matcher {
  import opened Wrappers
  import opened Versions

  /** Whether the scan accepts c: c starts with the trial prefix and, when
      only formal releases are wanted, is one. */
  predicate Eligible(c: string, prefix: string, releasesOnly: bool) {
    prefix <= c && (!releasesOnly || IsReleaseVersion(c))
  }

  /** The early-return scan of `match`: the first candidate, in the
      matcher's order, that the scan accepts. */
  function FirstEligible(s: seq<string>, prefix: string, releasesOnly: bool): (r: Option<string>)
    ensures r.None? <==> forall c :: c in s ==> !Eligible(c, prefix, releasesOnly)
    ensures r.Some? ==>
              exists i :: 0 <= i < |s| && s[i] == r.value && Eligible(s[i], prefix, releasesOnly) &&
                forall j :: 0 <= j < i ==> !Eligible(s[j], prefix, releasesOnly)
  {
    if s == [] then None
    else if Eligible(s[0], prefix, releasesOnly) then Some(s[0])
    else
      var r := FirstEligible(s[1..], prefix, releasesOnly);
      assert forall c :: c in s ==> c == s[0] || c in s[1..];
      if r.Some? then
        var i :| 0 <= i < |s[1..]| && s[1..][i] == r.value && Eligible(s[1..][i], prefix, releasesOnly) &&
                 forall j :: 0 <= j < i ==> !Eligible(s[1..][j], prefix, releasesOnly);
        assert s[i + 1] == r.value && forall j :: 0 <= j < i + 1 ==> !Eligible(s[j], prefix, releasesOnly);
        r
      else r
  }

  /** The prefix the scan looks for when the name is not itself a
      candidate: a name without '.' is matched as if upgrading but keeps all
      of itself; an upgrade drops the last component of a dotted name; and
      a '.' is appended unless the name already ends with one. */
  function TrialPrefix(v: string, upgrade: bool): (p: string)
    ensures |p| > 0 && p[|p| - 1] == '.'
    ensures p <= v + "."
    ensures '.' !in v ==> p == v + "."
    ensures '.' in v && !upgrade ==> p == v + "." || (p == v && v[|v| - 1] == '.')
    ensures '.' in v && upgrade ==> p <= Head(v) + "."
    ensures '.' in v && upgrade ==>
              p == Head(v) + "." || (p == Head(v) && |p| > 0 && p[|p| - 1] == '.')
  {
    if '.' in v && upgrade then
      HeadPrefix(v);
      var h := Head(v);
      if |h| > 0 && h[|h| - 1] == '.' then h else h + "."
    else if |v| > 0 && v[|v| - 1] == '.' then v
    else v + "."
  }

  /** The head of a dotted name, with its dot, begins the name. */
  lemma HeadPrefix(v: string)
    requires '.' in v
    ensures Head(v) + "." <= v + "."
  {
    RsplitJoin(v);
    assert v + "." == Head(v) + "." + (Tail(v) + ".");
  }

  /** VersionMatcher.match over the matcher's candidates `cands`. A spec of
      None or Some("") is Python's falsy version: the latest formal release.
      A spec that is a candidate is returned as it is, before any upgrade
      handling. Otherwise the first candidate with the trial prefix, where
      a formal-release spec that upgrades (explicitly, or because it has no
      '.') only accepts formal releases. */
  function Match(cands: seq<string>, spec: Option<string>, upgrade: bool): (r: Option<string>)
    ensures r.Some? ==> r.value in cands && r.value != ""
    ensures spec.Some? && spec.value != "" && spec.value in cands ==> r == spec
    ensures (spec.None? || spec.value == "") && r.Some? ==> IsReleaseVersion(r.value)
    ensures spec.Some? && spec.value != "" && spec.value !in cands && r.Some? ==>
              TrialPrefix(spec.value, upgrade) <= r.value
    ensures (spec.Some? && spec.value != "" && IsReleaseVersion(spec.value) &&
             (upgrade || '.' !in spec.value) && r.Some?) ==> IsReleaseVersion(r.value)
  {
    if spec.None? || spec.value == "" then FirstEligible(cands, "", true)
    else if spec.value in cands then spec
    else
      var v := spec.value;
      var upg := upgrade || '.' !in v;
      FirstEligible(cands, TrialPrefix(v, upgrade), upg && IsReleaseVersion(v))
  }

  /** What a non-empty spec that is not a candidate may resolve to. */
  predicate Accepts(spec: string, upgrade: bool, c: string) {
    Eligible(c, TrialPrefix(spec, upgrade), (upgrade || '.' !in spec) && IsReleaseVersion(spec))
  }

  /** In a descending sequence the first accepted candidate is the greatest
      accepted one. */
  lemma FirstEligibleIsGreatest(lt: (string, string) -> bool, s: seq<string>, prefix: string, releasesOnly: bool)
    requires SortedDesc(lt, s)
    requires FirstEligible(s, prefix, releasesOnly).Some?
    ensures IsGreatest(lt, FirstEligible(s, prefix, releasesOnly).value,
                       set c | c in s && Eligible(c, prefix, releasesOnly))
  {
    var m := FirstEligible(s, prefix, releasesOnly).value;
    var i :| 0 <= i < |s| && s[i] == m && Eligible(s[i], prefix, releasesOnly) &&
             forall j :: 0 <= j < i ==> !Eligible(s[j], prefix, releasesOnly);
    forall c | c in s && Eligible(c, prefix, releasesOnly) && c != m
      ensures lt(c, m)
    {
      var j :| 0 <= j < |s| && s[j] == c;
      assert j != i;
    }
  }

  /** `match(None)` / `match('')`: the greatest formal release among the
      candidates, or None exactly when there is none. */
  lemma LatestRelease(lt: (string, string) -> bool, cands: seq<string>, upgrade: bool)
    requires SortedDesc(lt, cands)
    ensures Match(cands, None, upgrade).None? <==> forall c :: c in cands ==> !IsReleaseVersion(c)
    ensures Match(cands, None, upgrade).Some? ==>
              IsGreatest(lt, Match(cands, None, upgrade).value, set c | c in cands && IsReleaseVersion(c))
    ensures Match(cands, Some(""), upgrade) == Match(cands, None, upgrade)
  {
    var r := FirstEligible(cands, "", true);
    assert forall c :: Eligible(c, "", true) <==> IsReleaseVersion(c);
    if r.Some? {
      FirstEligibleIsGreatest(lt, cands, "", true);
      assert (set c | c in cands && Eligible(c, "", true)) == (set c | c in cands && IsReleaseVersion(c));
    }
  }

  /** A non-empty spec that is not a candidate resolves to the greatest
      candidate it accepts, or to None exactly when it accepts none. */
  lemma GreatestAccepted(lt: (string, string) -> bool, cands: seq<string>, spec: string, upgrade: bool)
    requires SortedDesc(lt, cands)
    requires spec != "" && spec !in cands
    ensures Match(cands, Some(spec), upgrade).None? <==> forall c :: c in cands ==> !Accepts(spec, upgrade, c)
    ensures Match(cands, Some(spec), upgrade).Some? ==>
              IsGreatest(lt, Match(cands, Some(spec), upgrade).value, set c | c in cands && Accepts(spec, upgrade, c))
  {
    var p := TrialPrefix(spec, upgrade);
    var ro := (upgrade || '.' !in spec) && IsReleaseVersion(spec);
    if FirstEligible(cands, p, ro).Some? {
      FirstEligibleIsGreatest(lt, cands, p, ro);
      assert (set c | c in cands && Eligible(c, p, ro)) == (set c | c in cands && Accepts(spec, upgrade, c));
    }
  }

  /** Matching a result again, with or without upgrade, gives the result:
      `match` is idempotent on its own answers. */
  lemma MatchIdempotent(cands: seq<string>, spec: Option<string>, upgrade: bool, upgrade': bool)
    requires Match(cands, spec, upgrade).Some?
    ensures Match(cands, Some(Match(cands, spec, upgrade).value), upgrade') == Match(cands, spec, upgrade)
  {
  }

  // Worked cases. Each names the facts of PEP 440's order it relies on.

  /** "3.12" resolves to 3.12.3 among {3.12.1, 3.12.3, 3.12.3rc1}, since
      PEP 440 puts 3.12.3rc1 below 3.12.3. */
  lemma MinorResolvesToNewestPatch(lt: (string, string) -> bool, cands: seq<string>)
    requires StrictTotalOrder(lt)
    requires lt("3.12.1", "3.12.3rc1") && lt("3.12.3rc1", "3.12.3")
    requires SortedDesc(lt, cands)
    requires forall c :: c in cands <==> c in {"3.12.1", "3.12.3", "3.12.3rc1"}
    ensures Match(cands, Some("3.12"), false) == Some("3.12.3")
  {
    assert "3.12" !in cands;
    GreatestAccepted(lt, cands, "3.12", false);
    assert TrialPrefix("3.12", false) == "3.12.";
    assert Accepts("3.12", false, "3.12.3");
    assert "3.12.3" in set c | c in cands && Accepts("3.12", false, c);
  }

  /** An exact candidate is returned even when upgrading: "3.12.3" with
      upgrade among {3.12.3, 3.12.4} stays 3.12.3. */
  lemma ExactBeatsUpgrade(cands: seq<string>)
    requires forall c :: c in cands <==> c in {"3.12.3", "3.12.4"}
    ensures Match(cands, Some("3.12.3"), true) == Some("3.12.3")
  {
    assert "3.12.3" in cands;
  }

  /** A non-empty name of digits and dots that starts with a digit is a
      formal release. */
  lemma ReleaseLiteral(v: string)
    requires |v| > 0 && IsDigit(v[0])
    requires forall i :: 0 <= i < |v| ==> IsDigit(v[i]) || v[i] == '.'
    ensures IsReleaseVersion(v)
  {
    ReleaseVersionChars(v);
    assert v[0] in v;
    forall c | c in v
      ensures IsDigit(c) || c == '.'
    {
      var i :| 0 <= i < |v| && v[i] == c;
    }
  }

  lemma UpgradeTrial()
    ensures TrialPrefix("3.12.3", true) == "3.12."
    ensures IsReleaseVersion("3.12.3")
  {
    HeadOfJoin("3.12", "3");
    assert "3.12" + "." + "3" == "3.12.3";
    ReleaseLiteral("3.12.3");
  }

  /** Upgrading 3.12.3 looks for formal releases starting "3.12.". */
  lemma UpgradeAccepts(c: string)
    requires c in {"3.12.4", "3.12.5", "3.13.0"}
    ensures Accepts("3.12.3", true, c) <==> c != "3.13.0"
  {
    UpgradeTrial();
    if c == "3.13.0" {
      assert "3.13.0"[3] != "3.12."[3];
    } else if c == "3.12.4" {
      ReleaseLiteral("3.12.4");
    } else {
      ReleaseLiteral("3.12.5");
    }
  }

  /** Upgrading 3.12.3, which is not offered, picks the newest 3.12 patch
      of the candidates 3.13.0, 3.12.5, 3.12.4, greatest first as PEP 440
      orders them. */
  lemma UpgradeWithinMinor()
    ensures Match(["3.13.0", "3.12.5", "3.12.4"], Some("3.12.3"), true) == Some("3.12.5")
  {
    UpgradeTrial();
    UpgradeAccepts("3.13.0");
    UpgradeAccepts("3.12.5");
  }

  /** "9.9" resolves to nothing when no candidate starts with "9.9.". */
  lemma UnknownMinorNotFound(cands: seq<string>)
    requires "9.9" !in cands
    requires forall c :: c in cands ==> !("9.9." <= c)
    ensures Match(cands, Some("9.9"), false).None?
  {
    assert TrialPrefix("9.9", false) == "9.9.";
  }
}
