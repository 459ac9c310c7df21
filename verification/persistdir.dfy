/**
  The cache directory of a source file (get_persist_dir_from_paths in
  persist_to_disk/persister.py): under a project, the project path inside
  the file's path (extension stripped) is replaced by the base directory;
  without a project, the file gets a numbered directory under
  `<base>/.hashed` from the id table `mapping.txt`.
 */
module PersistDir {
  import opened Values
  import opened Text
  import opened OsPath
  import opened Utils

  /** The project-path branch as written: the path must end in ".py"; the
      project path must occur in it somewhere; every occurrence is
      replaced by the base directory. */
  function GetPersistDirFromPaths(baseDir: string, filePath: string, projectPath: string): (r: Result<string>)
    ensures r.Ok? <==> EndsWith(filePath, ".py") && Occurs(projectPath, SplitExtRoot(filePath))
    ensures r.Err? ==> (r.error == NotAPyFile <==> !EndsWith(filePath, ".py"))
    ensures r.Ok? && |baseDir| == |projectPath| ==> |r.value| == |SplitExtRoot(filePath)| <= |filePath|
  {
    if !EndsWith(filePath, ".py") then Err(NotAPyFile)
    else
      var root := SplitExtRoot(filePath);
      if !Occurs(projectPath, root) then Err(NotUnderProject)
      else Ok(ReplaceAll(root, projectPath, baseDir))
  }

  lemma OccursPrefix(p: string, s: string)
    requires IsPrefix(p, s)
    ensures Occurs(p, s)
  {
  }

  /** For a module whose path starts with the project path and does not
      repeat it, the cache directory is the base directory followed by the
      module's path relative to the project. */
  lemma PersistDirOfProjectFile(baseDir: string, filePath: string, projectPath: string)
    requires projectPath != []
    requires EndsWith(filePath, ".py")
    requires IsPrefix(projectPath, SplitExtRoot(filePath))
    requires !Occurs(projectPath, SplitExtRoot(filePath)[|projectPath|..])
    ensures GetPersistDirFromPaths(baseDir, filePath, projectPath) ==
      Ok(baseDir + SplitExtRoot(filePath)[|projectPath|..])
  {
    var root := SplitExtRoot(filePath);
    var rel := root[|projectPath|..];
    assert Occurs(projectPath, root) by {
      OccursPrefix(projectPath, root);
    }
    assert ReplaceAll(root, projectPath, baseDir) == baseDir + rel by {
      assert root == projectPath + rel;
      ReplaceOnlyLeading(projectPath, rel, baseDir);
    }
  }

  lemma ReplaceOnlyLeading(pat: string, rest: string, rep: string)
    requires pat != [] && !Occurs(pat, rest)
    ensures ReplaceAll(pat + rest, pat, rep) == rep + rest
  {
    ReplaceLeading(pat, rest, rep);
    ReplaceAbsent(rest, pat, rep);
  }

  lemma RFindAt(p: string, c: char, i: int)
    requires 0 <= i < |p| && p[i] == c
    requires forall j :: i < j < |p| ==> p[j] != c
    ensures RFind(p, c) == i
  {
  }

  /** A first character that does not start pat is kept, and the scan
      goes on after it. */
  lemma ReplaceSkip(c: char, rest: string, pat: string, rep: string)
    requires pat != [] && |pat| <= |rest| + 1 && ([c] + rest)[..|pat|] != pat
    ensures ReplaceAll([c] + rest, pat, rep) == [c] + ReplaceAll(rest, pat, rep)
  {
    assert ([c] + rest)[1..] == rest;
  }

  // The pattern and replacement are parameters so that the solver does
  // not evaluate ReplaceAll on literal arguments all at once.

  lemma ReplaceInTail(pat: string, rep: string)
    requires pat == "/p"
    ensures ReplaceAll("/y", pat, rep) == "/y"
  {
    assert ReplaceAll("y", pat, rep) == "y";
    assert "/y" == ['/'] + "y" && ("/y")[1] != pat[1];
    ReplaceSkip('/', "y", pat, rep);
  }

  lemma ReplacePY(pat: string, rep: string)
    requires pat == "/p" && rep == "/c"
    ensures ReplaceAll("/p/y", pat, rep) == "/c/y"
  {
    ReplaceInTail(pat, rep);
    assert "/p/y" == pat + "/y";
    ReplaceLeading(pat, "/y", rep);
  }

  lemma ReplaceXPY(pat: string, rep: string)
    requires pat == "/p" && rep == "/c"
    ensures ReplaceAll("/x/p/y", pat, rep) == "/x/c/y"
  {
    ReplacePY(pat, rep);
    assert "x/p/y" == ['x'] + "/p/y" && ("x/p/y")[0] != pat[0];
    ReplaceSkip('x', "/p/y", pat, rep);
    assert "/x/p/y" == ['/'] + "x/p/y" && ("/x/p/y")[1] != pat[1];
    ReplaceSkip('/', "x/p/y", pat, rep);
  }

  lemma ReplaceInFirst(pat: string, rep: string)
    requires pat == "/p" && rep == "/c"
    ensures ReplaceAll("/p/x/p/y", pat, rep) == "/c/x/c/y"
  {
    ReplaceXPY(pat, rep);
    assert "/p/x/p/y" == pat + "/x/p/y";
    ReplaceLeading(pat, "/x/p/y", rep);
  }

  lemma ReplaceCY(pat: string, rep: string)
    requires pat == "/p"
    ensures ReplaceAll("/c/y", pat, rep) == "/c/y"
  {
    ReplaceInTail(pat, rep);
    assert "c/y" == ['c'] + "/y" && ("c/y")[0] != pat[0];
    ReplaceSkip('c', "/y", pat, rep);
    assert "/c/y" == ['/'] + "c/y" && ("/c/y")[1] != pat[1];
    ReplaceSkip('/', "c/y", pat, rep);
  }

  lemma ReplaceXCY(pat: string, rep: string)
    requires pat == "/p"
    ensures ReplaceAll("/x/c/y", pat, rep) == "/x/c/y"
  {
    ReplaceCY(pat, rep);
    assert "x/c/y" == ['x'] + "/c/y" && ("x/c/y")[0] != pat[0];
    ReplaceSkip('x', "/c/y", pat, rep);
    assert "/x/c/y" == ['/'] + "x/c/y" && ("/x/c/y")[1] != pat[1];
    ReplaceSkip('/', "x/c/y", pat, rep);
  }

  lemma ReplaceInSecond(pat: string, rep: string)
    requires pat == "/p" && rep == "/c"
    ensures ReplaceAll("/p/x/c/y", pat, rep) == "/c/x/c/y"
  {
    ReplaceXCY(pat, rep);
    assert "/p/x/c/y" == pat + "/x/c/y";
    ReplaceLeading(pat, "/x/c/y", rep);
  }

  lemma ExtRootOf(f: string, r: string)
    requires |f| == 11 && f[6] == '/' && f[7] == 'y' && f[8..] == ".py" && f[..8] == r
    requires forall j :: 6 < j < |f| ==> f[j] != '/'
    ensures SplitExtRoot(f) == r
  {
    RFindAt(f, '/', 6);
    RFindAt(f, '.', 8);
  }

  /** Two different modules of one project share a cache directory when
      the project path reappears inside one of them and the base
      directory's text inside the other. */
  lemma CacheDirCollision()
    ensures GetPersistDirFromPaths("/c", "/p/x/p/y.py", "/p") == Ok("/c/x/c/y")
    ensures GetPersistDirFromPaths("/c", "/p/x/c/y.py", "/p") == Ok("/c/x/c/y")
  {
    ExtRootOf("/p/x/p/y.py", "/p/x/p/y");
    ExtRootOf("/p/x/c/y.py", "/p/x/c/y");
    OccursPrefix("/p", "/p/x/p/y");
    OccursPrefix("/p", "/p/x/c/y");
    ReplaceInFirst("/p", "/c");
    ReplaceInSecond("/p", "/c");
  }

  /** The project-path branch with the project path taken as a leading
      directory: it must start the path, and only that leading occurrence
      is replaced by the base directory. */
  function GetPersistDirUnderProject(baseDir: string, filePath: string, projectPath: string): (r: Result<string>)
    ensures r.Ok? ==> EndsWith(filePath, ".py") && IsPrefix(projectPath, SplitExtRoot(filePath))
    ensures r.Ok? ==> IsPrefix(baseDir, r.value)
  {
    if !EndsWith(filePath, ".py") then Err(NotAPyFile)
    else
      var root := SplitExtRoot(filePath);
      if !IsPrefix(projectPath, root) then Err(NotUnderProject)
      else Ok(baseDir + root[|projectPath|..])
  }

  /** With leading-directory replacement, different modules of a project
      always get different cache directories. */
  lemma UnderProjectInjective(baseDir: string, projectPath: string, file1: string, file2: string)
    requires GetPersistDirUnderProject(baseDir, file1, projectPath).Ok?
    requires GetPersistDirUnderProject(baseDir, file2, projectPath).Ok?
    requires SplitExtRoot(file1) != SplitExtRoot(file2)
    ensures GetPersistDirUnderProject(baseDir, file1, projectPath) != GetPersistDirUnderProject(baseDir, file2, projectPath)
  {
    var r1, r2 := SplitExtRoot(file1), SplitExtRoot(file2);
    var d1 := baseDir + r1[|projectPath|..];
    var d2 := baseDir + r2[|projectPath|..];
    assert r1 == projectPath + r1[|projectPath|..] && r2 == projectPath + r2[|projectPath|..];
    assert d1[|baseDir|..] == r1[|projectPath|..] && d2[|baseDir|..] == r2[|projectPath|..];
  }

  /** Where the leading-directory version and the version as written
      agree: a path that starts with the project path and does not repeat
      it. */
  lemma UnderProjectAgrees(baseDir: string, filePath: string, projectPath: string)
    requires projectPath != [] && EndsWith(filePath, ".py")
    requires IsPrefix(projectPath, SplitExtRoot(filePath))
    requires !Occurs(projectPath, SplitExtRoot(filePath)[|projectPath|..])
    ensures GetPersistDirUnderProject(baseDir, filePath, projectPath) == GetPersistDirFromPaths(baseDir, filePath, projectPath)
  {
    PersistDirOfProjectFile(baseDir, filePath, projectPath);
  }

  /** os.path.basename(p). */
  function BaseName(p: string): string
  {
    p[RFind(p, '/') + 1..]
  }

  /** The branch without a project: `<base>/.hashed` is created, the
      module path (extension stripped) gets an id from the table
      `<base>/.hashed/mapping.txt`, and the directory is named after the
      module's file name and that id. */
  method GetPersistDirNoProject(fs: FileSystem, baseDir: string, filePath: string) returns (r: Result<string>)
    modifies fs
    ensures !EndsWith(filePath, ".py") ==> r == Err(NotAPyFile) && fs.dirs == old(fs.dirs) && fs.tables == old(fs.tables)
    ensures EndsWith(filePath, ".py") ==>
      var hashed := Join(baseDir, ".hashed");
      var meta := Join(hashed, "mapping.txt");
      var root := SplitExtRoot(filePath);
      && (DirsAfter(old(fs.dirs), hashed, 3).None? ==> r == Err(TooDeep) && fs.dirs == old(fs.dirs) && fs.tables == old(fs.tables))
      && (DirsAfter(old(fs.dirs), hashed, 3).Some? ==>
            && fs.dirs == DirsAfter(old(fs.dirs), hashed, 3).value
            && root in TableOf(LinesOf(fs.tables, meta))
            && r == Ok(Join(hashed, BaseName(root) + "-" + TableOf(LinesOf(fs.tables, meta))[root]))
            && (forall t :: t != meta ==> LinesOf(fs.tables, t) == LinesOf(old(fs.tables), t)))
    ensures fs.pickles == old(fs.pickles)
  {
    if !EndsWith(filePath, ".py") {
      return Err(NotAPyFile);
    }
    var root := SplitExtRoot(filePath);
    var hashed := Join(baseDir, ".hashed");
    var ok := fs.MakeDirIfNecessary(hashed, 3);
    if !ok {
      return Err(TooDeep);
    }
    var meta := Join(hashed, "mapping.txt");
    var pid := fs.RetrieveId(meta, root);
    r := Ok(Join(hashed, BaseName(root) + "-" + pid));
  }
}
