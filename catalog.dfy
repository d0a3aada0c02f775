/** add_file: reading an asset file name of a release into
    `files[impl][version][arch] = url`, the catalog a release offers. */
module Catalog {
  import opened Wrappers

  /** files[impl][version][arch] = download URL. */
  type Files = map<string, map<string, map<string, string>>>

  /** What add_file makes of an asset name: not an archive (ignored), a
      name whose split raises ValueError in the source, an archive built
      for another release (ignored), or the three fields it files. */
  datatype AssetName = NotArchive | Malformed | OtherRelease | Asset(impl: string, ver: string, arch: string)

  /** Position of the first c in s, if any. */
  function IndexOf(s: string, c: char): (r: Option<nat>)
    ensures r.Some? ==> r.value < |s| && s[r.value] == c && c !in s[..r.value]
    ensures r.None? <==> c !in s
  {
    if s == [] then None
    else if s[0] == c then Some(0)
    else
      var r := IndexOf(s[1..], c);
      assert s == [s[0]] + s[1..];
      if r.Some? then
        assert s[..r.value + 1] == [s[0]] + s[1..][..r.value];
        Some(r.value + 1)
      else None
  }

  /** The first c in s is at i when s[i] is c and no earlier one is. */
  lemma IndexOfFirst(s: string, c: char, i: nat)
    requires i < |s| && s[i] == c && c !in s[..i]
    ensures IndexOf(s, c) == Some(i)
  {
  }

  predicate EndsWith(s: string, suffix: string) {
    |suffix| <= |s| && s[|s| - |suffix|..] == suffix
  }

  /** The name without `.tar.zst` or `.tar.gz`; None for any other file. */
  function ArchiveStem(name: string): Option<string> {
    if EndsWith(name, ".tar.zst") then Some(name[..|name| - 8])
    else if EndsWith(name, ".tar.gz") then Some(name[..|name| - 7])
    else None
  }

  /** The parsing half of add_file: `impl, ver, arch = name.split('-', 2)`
      (fewer than two '-' raise), and a `ver+tag` version, the modern form,
      is kept only when its tag is this release's (more than one '+'
      raises). */
  function ParseAssetName(tag: string, name: string): (r: AssetName)
    ensures r.Asset? ==> '-' !in r.impl && '-' !in r.ver && '+' !in r.ver
    ensures r.NotArchive? <==> ArchiveStem(name).None?
  {
    match ArchiveStem(name)
    case None => NotArchive
    case Some(stem) =>
      match IndexOf(stem, '-')
      case None => Malformed
      case Some(i) =>
        var rest := stem[i + 1..];
        match IndexOf(rest, '-')
        case None => Malformed
        case Some(j) =>
          var impl, ver, arch := stem[..i], rest[..j], rest[j + 1..];
          match IndexOf(ver, '+')
          case None => Asset(impl, ver, arch)
          case Some(k) =>
            var v, filetag := ver[..k], ver[k + 1..];
            if '+' in filetag then Malformed
            else if filetag != tag then OtherRelease
            else Asset(impl, v, arch)
  }

  /** The asset name the build project gives an archive. */
  function AssetFileName(impl: string, ver: string, tag: string, arch: string, ext: string): string {
    impl + "-" + ver + (if tag == "" then "" else "+" + tag) + "-" + arch + ext
  }

  /** `.tar.zst` and `.tar.gz` are recognised and cut off. */
  lemma ArchiveStemOf(stem: string, ext: string)
    requires ext == ".tar.zst" || ext == ".tar.gz"
    ensures ArchiveStem(stem + ext) == Some(stem)
  {
    var name := stem + ext;
    assert name[|name| - |ext|..] == ext;
    if ext == ".tar.gz" {
      assert name[|name| - 1] == 'z';
    }
  }

  /** `split('-', 2)` of a stem whose first two fields hold no '-'. */
  lemma SplitFields(impl: string, mid: string, arch: string)
    requires '-' !in impl && '-' !in mid
    ensures var stem := impl + "-" + mid + "-" + arch;
            IndexOf(stem, '-') == Some(|impl|) &&
            stem[|impl| + 1..] == mid + "-" + arch &&
            IndexOf(mid + "-" + arch, '-') == Some(|mid|) &&
            stem[..|impl|] == impl &&
            (mid + "-" + arch)[..|mid|] == mid && (mid + "-" + arch)[|mid| + 1..] == arch
  {
    var stem := impl + "-" + mid + "-" + arch;
    assert stem[..|impl|] == impl;
    IndexOfFirst(stem, '-', |impl|);
    var rest := mid + "-" + arch;
    assert rest[..|mid|] == mid;
    IndexOfFirst(rest, '-', |mid|);
  }

  /** `ver.split('+')` of a version carrying one tag. */
  lemma SplitTag(ver: string, tag: string)
    requires '+' !in ver
    ensures var mid := ver + "+" + tag;
            IndexOf(mid, '+') == Some(|ver|) && mid[..|ver|] == ver && mid[|ver| + 1..] == tag
  {
    var mid := ver + "+" + tag;
    assert mid[..|ver|] == ver;
    IndexOfFirst(mid, '+', |ver|);
  }

  /** Reading back the name of an archive of this release, in the modern
      `ver+tag` form or the older form without a tag, yields its fields. */
  lemma ParseAssetFileName(impl: string, ver: string, tag: string, withTag: bool, arch: string, ext: string)
    requires '-' !in impl && '-' !in ver && '+' !in ver && '-' !in tag && '+' !in tag
    requires withTag ==> tag != ""
    requires ext == ".tar.zst" || ext == ".tar.gz"
    ensures ParseAssetName(tag, AssetFileName(impl, ver, if withTag then tag else "", arch, ext)) == Asset(impl, ver, arch)
  {
    var mid := if withTag then ver + "+" + tag else ver;
    var stem := impl + "-" + mid + "-" + arch;
    assert AssetFileName(impl, ver, if withTag then tag else "", arch, ext) == stem + ext;
    ArchiveStemOf(stem, ext);
    assert '-' !in mid;
    SplitFields(impl, mid, arch);
    if withTag {
      SplitTag(ver, tag);
    }
  }

  /** An archive of another release is never filed. */
  lemma OtherReleaseSkipped(impl: string, ver: string, other: string, tag: string, arch: string, ext: string)
    requires '-' !in impl && '-' !in ver && '+' !in ver && '-' !in other && '+' !in other
    requires other != "" && other != tag
    requires ext == ".tar.zst" || ext == ".tar.gz"
    ensures ParseAssetName(tag, AssetFileName(impl, ver, other, arch, ext)) == OtherRelease
  {
    var mid := ver + "+" + other;
    var stem := impl + "-" + mid + "-" + arch;
    assert AssetFileName(impl, ver, other, arch, ext) == stem + ext;
    ArchiveStemOf(stem, ext);
    assert '-' !in mid;
    SplitFields(impl, mid, arch);
    SplitTag(ver, other);
  }

  /** The URL filed under (impl, ver, arch), if any. */
  function Lookup(files: Files, impl: string, ver: string, arch: string): Option<string> {
    if impl in files && ver in files[impl] && arch in files[impl][ver] then Some(files[impl][ver][arch])
    else None
  }

  /** The filing half of add_file, as a value: the nested dictionaries are
      created on demand and `[impl][ver][arch]` is set. */
  function Insert(files: Files, impl: string, ver: string, arch: string, url: string): (r: Files)
    ensures Lookup(r, impl, ver, arch) == Some(url)
    ensures forall i, v, a :: (i, v, a) != (impl, ver, arch) ==> Lookup(r, i, v, a) == Lookup(files, i, v, a)
    ensures r.Keys == files.Keys + {impl}
    ensures r[impl].Keys == (if impl in files then files[impl].Keys else {}) + {ver}
  {
    var vers := if impl in files then files[impl] else map[];
    var arches := if ver in vers then vers[ver] else map[];
    files[impl := vers[ver := arches[arch := url]]]
  }

  /** The catalog get_release_files builds, asset by asset. */
  class ReleaseFiles {
    var files: Files

    constructor ()
      ensures files == map[]
    {
      files := map[];
    }

    /** add_file(files, tag, name, url): files the archive when its name
        parses and belongs to this release, and changes nothing otherwise
        (on a Malformed name the source raises before changing anything). */
    method AddFile(tag: string, name: string, url: string) returns (r: AssetName)
      modifies this
      ensures r == ParseAssetName(tag, name)
      ensures files == if r.Asset? then Insert(old(files), r.impl, r.ver, r.arch, url) else old(files)
    {
      r := ParseAssetName(tag, name);
      if !r.Asset? {
        return;
      }
      var impl, ver, arch := r.impl, r.ver, r.arch;
      ghost var vers0 := if impl in files then files[impl] else map[];
      ghost var arches0 := if ver in vers0 then vers0[ver] else map[];
      if impl !in files {
        files := files[impl := map[]];
      }
      var vers := files[impl];
      assert vers == vers0;
      if ver !in vers {
        vers := vers[ver := map[]];
      }
      assert vers[ver] == arches0;
      vers := vers[ver := vers[ver][arch := url]];
      assert vers == vers0[ver := arches0[arch := url]];
      files := files[impl := vers];
      assert files == old(files)[impl := vers];
    }
  }
}
