/** The layout step of fetch: which part of an unpacked archive becomes the
    version directory. */
module Archive {
  import opened Wrappers

  /** A directory tree: files and folders by name. */
  datatype Node = File | Folder(children: map<string, Node>)

  type Tree = map<string, Node>

  const PythonDir := "python"
  const InstallDir := "install"
  const SrcDir := "src"

  /** `os.replace` of a moved entry onto an existing entry of the same name
      succeeds only for a file over a file or a folder over an empty
      folder; otherwise it raises. */
  predicate ReplaceRaises(moved: Node, existing: Node) {
    !(moved.File? && existing.File?) && !(moved.Folder? && existing == Folder(map[]))
  }

  /** Some entry moved into `src/` meets one of the same name it cannot
      replace. */
  predicate Clashes(src: Tree, siblings: Tree) {
    exists n :: n in siblings && n in src && ReplaceRaises(siblings[n], src[n])
  }

  /** The tree fetch moves into the version's scratch directory, or None
      where the source raises instead:
      - `python/` must be a folder (otherwise `pdir.replace` raises);
      - with no `python/install/`, `python/` itself is installed;
      - otherwise `python/install/` must be a folder and is installed, and
        when sources are requested every other entry of `python/` is moved
        into `install/src/`, which is created before the first move and
        must not be a file, and no move may clash with an entry already
        there. */
  function InterpreterRoot(unpacked: Tree, includeSource: bool): (r: Option<Tree>)
    ensures r.Some? <==>
              && PythonDir in unpacked && unpacked[PythonDir].Folder?
              && var p := unpacked[PythonDir].children;
                 (InstallDir in p ==>
                    && p[InstallDir].Folder?
                    && var inst := p[InstallDir].children;
                       (includeSource && (exists n :: n in p && n != InstallDir) ==>
                          (SrcDir in inst ==> inst[SrcDir].Folder? && !Clashes(inst[SrcDir].children, p - {InstallDir}))))
  {
    if PythonDir !in unpacked || !unpacked[PythonDir].Folder? then None
    else
      var p := unpacked[PythonDir].children;
      if InstallDir !in p then Some(p)
      else if !p[InstallDir].Folder? then None
      else
        var inst := p[InstallDir].children;
        var siblings := p - {InstallDir};
        if !includeSource || siblings == map[] then
          assert forall n :: n in p && n != InstallDir ==> n in siblings;
          Some(inst)
        else if SrcDir in inst && !inst[SrcDir].Folder? then None
        else
          var src := if SrcDir in inst then inst[SrcDir].children else map[];
          if Clashes(src, siblings) then None
          else Some(inst[SrcDir := Folder(src + siblings)])
  }

  /** The one way the layout step raises after it has started moving
      entries: `install/src/` exists and some entry of `python/` clashes
      with one in it. Every other raise comes before the first move. */
  predicate RaisesMidMove(unpacked: Tree, includeSource: bool) {
    && includeSource
    && PythonDir in unpacked && unpacked[PythonDir].Folder?
    && InstallDir in unpacked[PythonDir].children
    && unpacked[PythonDir].children[InstallDir].Folder?
    && SrcDir in unpacked[PythonDir].children[InstallDir].children
    && unpacked[PythonDir].children[InstallDir].children[SrcDir].Folder?
    && Clashes(unpacked[PythonDir].children[InstallDir].children[SrcDir].children,
               unpacked[PythonDir].children - {InstallDir})
  }

  /** Entries `moved` may have been moved before the move that raises: any
      entries of `python/` beside `install/` that do not clash, in whatever
      order the directory lists them. Nothing moves before any other raise. */
  predicate SafeMoves(unpacked: Tree, includeSource: bool, moved: set<string>) {
    if RaisesMidMove(unpacked, includeSource) then
      var p := unpacked[PythonDir].children;
      var src := p[InstallDir].children[SrcDir].children;
      forall n :: n in moved ==> n in p && n != InstallDir && !(n in src && ReplaceRaises(p[n], src[n]))
    else moved == {}
  }

  /** What the unpacked tree has become when the layout step raises, after
      the entries `moved` went from `python/` into `python/install/src/`. */
  function Leftover(unpacked: Tree, includeSource: bool, moved: set<string>): (t: Tree)
    requires SafeMoves(unpacked, includeSource, moved)
    ensures moved == {} ==> t == unpacked
    ensures !RaisesMidMove(unpacked, includeSource) ==> t == unpacked
    ensures RaisesMidMove(unpacked, includeSource) ==>
              && t.Keys == unpacked.Keys
              && (forall n :: n in unpacked && n != PythonDir ==> t[n] == unpacked[n])
              && t[PythonDir].Folder?
              && var p := unpacked[PythonDir].children;
                 var q := t[PythonDir].children;
                 && q.Keys == p.Keys - moved
                 && (forall n :: n in q && n != InstallDir ==> q[n] == p[n])
                 && InstallDir in q && q[InstallDir].Folder?
                 && var inst := p[InstallDir].children;
                    var inst2 := q[InstallDir].children;
                    && inst2.Keys == inst.Keys
                    && (forall n :: n in inst && n != SrcDir ==> inst2[n] == inst[n])
                    && inst2[SrcDir].Folder?
                    && var src := inst[SrcDir].children;
                       var src2 := inst2[SrcDir].children;
                       && src2.Keys == src.Keys + moved
                       && (forall n :: n in moved ==> src2[n] == p[n])
                       && (forall n :: n in src && n !in moved ==> src2[n] == src[n])
  {
    if RaisesMidMove(unpacked, includeSource) then
      var p := unpacked[PythonDir].children;
      var inst := p[InstallDir].children;
      var src := inst[SrcDir].children;
      var m := map n | n in moved :: p[n];
      if moved == {} then
        assert m == map[];
        assert src + m == src;
        assert inst[SrcDir := Folder(src)] == inst;
        assert p - moved == p;
        assert p[InstallDir := Folder(inst)] == p;
        unpacked
      else
        unpacked[PythonDir := Folder((p - moved)[InstallDir := Folder(inst[SrcDir := Folder(src + m)])])]
    else unpacked
  }

  /** An archive with no `install/` level installs `python/` as it is. */
  lemma FlatLayout(unpacked: Tree, includeSource: bool)
    requires PythonDir in unpacked && unpacked[PythonDir].Folder?
    requires InstallDir !in unpacked[PythonDir].children
    ensures InterpreterRoot(unpacked, includeSource) == Some(unpacked[PythonDir].children)
  {
  }

  /** A source distribution installs `install/`. When sources are
      requested and `python/` holds anything beside `install/`, the result
      is `install/`'s entries plus `src/`, and `src/` holds exactly its
      old entries and the moved ones, the moved ones in place of any file
      or empty folder of the same name. Otherwise `install/` is taken as it
      is. */
  lemma SourceLayout(unpacked: Tree, includeSource: bool)
    requires PythonDir in unpacked && unpacked[PythonDir].Folder?
    requires InstallDir in unpacked[PythonDir].children
    requires InterpreterRoot(unpacked, includeSource).Some?
    ensures var p := unpacked[PythonDir].children;
            var r := InterpreterRoot(unpacked, includeSource).value;
            && p[InstallDir].Folder?
            && var inst := p[InstallDir].children;
               var src := if SrcDir in inst && inst[SrcDir].Folder? then inst[SrcDir].children else map[];
               && (forall n :: n in inst && n != SrcDir ==> n in r && r[n] == inst[n])
               && (includeSource && (exists n :: n in p && n != InstallDir) ==>
                     && r.Keys == inst.Keys + {SrcDir}
                     && r[SrcDir].Folder?
                     && r[SrcDir].children.Keys == src.Keys + (p.Keys - {InstallDir})
                     && (forall n :: n in p && n != InstallDir ==> r[SrcDir].children[n] == p[n])
                     && (forall n :: n in src && (n !in p || n == InstallDir) ==> r[SrcDir].children[n] == src[n]))
               && (!includeSource || (forall n :: n in p ==> n == InstallDir) ==> r == inst)
  {
    var p := unpacked[PythonDir].children;
    if includeSource && (exists n :: n in p && n != InstallDir) {
      var n :| n in p && n != InstallDir;
      assert n in p - {InstallDir};
    } else if includeSource {
      assert p - {InstallDir} == map[];
    }
  }

  /** A folder moved into `src/` onto a folder that is not empty makes the
      layout step raise: `python/{install/{src/{Modules/{a}}}, Modules/{b}}`
      with sources requested. */
  lemma SourceClashRaises()
    ensures var u := map[PythonDir := Folder(map[
                       InstallDir := Folder(map[SrcDir := Folder(map["Modules" := Folder(map["a" := File])])]),
                       "Modules" := Folder(map["b" := File])])];
            && InterpreterRoot(u, true).None?
            && RaisesMidMove(u, true)
            && InterpreterRoot(u, false) == Some(map[SrcDir := Folder(map["Modules" := Folder(map["a" := File])])])
  {
    var u := map[PythonDir := Folder(map[
               InstallDir := Folder(map[SrcDir := Folder(map["Modules" := Folder(map["a" := File])])]),
               "Modules" := Folder(map["b" := File])])];
    var p := u[PythonDir].children;
    assert "Modules" in p - {InstallDir};
    assert "a" in Folder(map["a" := File]).children;
  }

  /** Unpacking a tree with no folder `python/` makes fetch raise. */
  lemma MissingPythonRaises(unpacked: Tree, includeSource: bool)
    requires PythonDir !in unpacked || unpacked[PythonDir].File?
    ensures InterpreterRoot(unpacked, includeSource).None?
  {
  }
}
