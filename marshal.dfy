/**
 * The per-notebook marshal store: a hidden directory next to the notebook
 * holding one serialized file per variable a pipeline step exported, read back
 * whole by `unmarshal_data`, and used to decide whether a step is being
 * re-run interactively (exploration mode).
 *
 * `os.path.realpath` is the parameter `realpath`: it turns a path string into
 * the canonical path it denotes on the host. `os.listdir` order is the
 * parameter `names`, and deserialization (`resource_load`) is `load`.
 */
module Marshal {
  import opened Wrappers
  import opened PosixPath
  import opened FileTree

  const MarshalDirPostfix: string := ".kale.marshal.dir"
  const PipelineStepEnv: string := "KALE_PIPELINE_STEP"

  /** The process environment. */
  type Env = map<string, string>

  /** The marshal directory's own name: hidden, and a single path component. */
  function MarshalDirName(notebookPath: string): (name: string)
    ensures |name| > 0 && name[0] == ExtSep
    ensures NoSlash(name)
  {
    "." + BaseName(notebookPath) + MarshalDirPostfix
  }

  /**
   * The marshal directory's path before symlinks are resolved: the notebook's
   * own directory joined with `"." + basename + ".kale.marshal.dir"`.
   */
  function MarshalDirPath(notebookPath: string): (p: string)
    ensures BaseName(p) == "." + BaseName(notebookPath) + MarshalDirPostfix
    ensures DirName(p) == DirName(notebookPath)
  {
    SplitJoin(DirName(notebookPath), MarshalDirName(notebookPath));
    Join(DirName(notebookPath), MarshalDirName(notebookPath))
  }

  /** `_get_kale_marshal_dir`: the canonical location of the notebook's marshal directory. */
  function KaleMarshalDir(notebookPath: string, realpath: string -> CPath): (dir: CPath)
    ensures exists p :: dir == realpath(p) && DirName(p) == DirName(notebookPath)
                        && BaseName(p) == "." + BaseName(notebookPath) + MarshalDirPostfix
  {
    var p := MarshalDirPath(notebookPath);
    assert realpath(p) == realpath(MarshalDirPath(notebookPath));
    realpath(p)
  }

  /**
   * Two notebooks share a marshal-directory path exactly when they have the same
   * directory part and the same base name; in particular two notebooks with
   * different base names never share one.
   */
  lemma MarshalDirPathInjective(a: string, b: string)
    ensures MarshalDirPath(a) == MarshalDirPath(b) <==> DirName(a) == DirName(b) && BaseName(a) == BaseName(b)
  {
    if MarshalDirPath(a) == MarshalDirPath(b) {
      var na, nb := MarshalDirName(a), MarshalDirName(b);
      assert na == nb;
      var k := |MarshalDirPostfix|;
      assert |BaseName(a)| == |BaseName(b)|;
      assert BaseName(a) == na[1..|na| - k];
      assert BaseName(b) == nb[1..|nb| - k];
    }
  }

  /** `os.listdir`'s answer for a directory: each entry of its listing exactly once. */
  predicate Enumerates(names: seq<Name>, listing: Listing) {
    && (forall n :: n in names ==> n in listing)
    && (forall n :: n in listing ==> n in names)
    && (forall i, j :: 0 <= i < j < |names| ==> names[i] != names[j])
  }

  /** The list comprehension: the listed names that are regular files inside `dir`, in listing order. */
  function FilesIn(t: Tree, dir: CPath, names: seq<Name>): (files: seq<Name>)
    ensures |files| <= |names|
    ensures forall n :: n in files <==> n in names && IsFile(t, dir + [n])
  {
    if names == [] then []
    else (if IsFile(t, dir + [names[0]]) then [names[0]] else []) + FilesIn(t, dir, names[1..])
  }

  /** Every listed file loads without raising. */
  predicate AllLoad<V, E>(dir: CPath, files: seq<Name>, load: CPath -> Result<V, E>) {
    forall i :: 0 <= i < |files| ==> load(dir + [files[i]]).Success?
  }

  /**
   * The dict comprehension `{key(f): load(dir/f) for f in files}`: files are
   * loaded in listing order, the first load that raises ends it with that
   * error, and when two files share a key the one listed later overwrites the
   * earlier.
   */
  function LoadAll<V, E>(dir: CPath, files: seq<Name>, key: Name -> string,
                         load: CPath -> Result<V, E>): (r: Result<map<string, V>, E>)
    ensures r.Success? <==> AllLoad(dir, files, load)
  {
    if files == [] then Success(map[])
    else
      var init, f := files[..|files| - 1], files[|files| - 1];
      match LoadAll(dir, init, key, load)
      case Failure(e) =>
        assert !AllLoad(dir, files, load) by {
          var i :| 0 <= i < |init| && !load(dir + [init[i]]).Success?;
          assert files[i] == init[i];
        }
        Failure(e)
      case Success(m) =>
        assert forall i :: 0 <= i < |init| ==> files[i] == init[i];
        match load(dir + [f])
        case Failure(e) => Failure(e)
        case Success(v) => Success(m[key(f) := v])
  }

  /** A failed load reports the error of the first listed file whose load raised. */
  lemma {:induction false} LoadAllFailsAtFirst<V, E>(dir: CPath, files: seq<Name>, key: Name -> string,
                                                     load: CPath -> Result<V, E>)
    requires LoadAll(dir, files, key, load).Failure?
    ensures exists i :: 0 <= i < |files| && load(dir + [files[i]]) == Failure(LoadAll(dir, files, key, load).error)
                        && AllLoad(dir, files[..i], load)
  {
    var init, f := files[..|files| - 1], files[|files| - 1];
    var r := LoadAll(dir, files, key, load);
    if LoadAll(dir, init, key, load).Failure? {
      LoadAllFailsAtFirst(dir, init, key, load);
      var i :| 0 <= i < |init| && load(dir + [init[i]]) == Failure(LoadAll(dir, init, key, load).error)
               && AllLoad(dir, init[..i], load);
      assert files[i] == init[i] && files[..i] == init[..i];
    } else {
      assert init == files[..|files| - 1];
      assert load(dir + [files[|files| - 1]]) == Failure(r.error);
    }
  }

  /** `files[i]` is the last of `files` whose key is `k`. */
  predicate LastWithKey(files: seq<Name>, key: Name -> string, i: int, k: string) {
    0 <= i < |files| && key(files[i]) == k && forall j :: i < j < |files| ==> key(files[j]) != k
  }

  /** On success the keys are exactly the keys of the files. */
  lemma {:induction false} LoadAllKeys<V, E>(dir: CPath, files: seq<Name>, key: Name -> string,
                                             load: CPath -> Result<V, E>)
    requires LoadAll(dir, files, key, load).Success?
    ensures LoadAll(dir, files, key, load).value.Keys == set n | n in files :: key(n)
  {
    if files != [] {
      var init, f := files[..|files| - 1], files[|files| - 1];
      LoadAllKeys(dir, init, key, load);
      assert files == init + [f];
      assert forall n :: n in files <==> n in init || n == f;
    }
  }

  /** On success every value comes from the last listed file with that key. */
  lemma {:induction false} LoadAllTakesLast<V, E>(dir: CPath, files: seq<Name>, key: Name -> string,
                                                  load: CPath -> Result<V, E>, k: string)
    requires LoadAll(dir, files, key, load).Success? && k in LoadAll(dir, files, key, load).value
    ensures exists i :: LastWithKey(files, key, i, k)
                        && load(dir + [files[i]]) == Success(LoadAll(dir, files, key, load).value[k])
  {
    assert files != [];
    var init, f := files[..|files| - 1], files[|files| - 1];
    var m, m0 := LoadAll(dir, files, key, load).value, LoadAll(dir, init, key, load).value;
    assert m == m0[key(f) := load(dir + [f]).value];
    if key(f) == k {
      assert LastWithKey(files, key, |files| - 1, k);
    } else {
      assert k in m0;
      LoadAllTakesLast(dir, init, key, load, k);
      var i :| LastWithKey(init, key, i, k) && load(dir + [init[i]]) == Success(m0[k]);
      assert files[i] == init[i];
      assert m[k] == m0[k];
      assert LastWithKey(files, key, i, k);
    }
  }

  /** The variable names the store holds: the stems of the regular files directly inside `dir`. */
  function StoredNames(t: Tree, dir: CPath): set<string> {
    if dir in t then set n | n in t[dir] && t[dir][n] == File :: Stem(n) else {}
  }

  /** A name is a regular file inside `dir` exactly when `dir`'s listing marks it as one. */
  lemma IsFileInDir(t: Tree, dir: CPath, n: Name)
    ensures IsFile(t, dir + [n]) <==> dir in t && n in t[dir] && t[dir][n] == File
  {
    assert Parent(dir + [n]) == dir && Last(dir + [n]) == n;
  }

  /** Filtering the listing to regular files and taking stems gives the stored names. */
  lemma FilesInStems(t: Tree, dir: CPath, names: seq<Name>)
    requires dir in t && Enumerates(names, t[dir])
    ensures (set n | n in FilesIn(t, dir, names) :: Stem(n)) == StoredNames(t, dir)
  {
    var files := FilesIn(t, dir, names);
    forall n ensures n in files <==> n in t[dir] && t[dir][n] == File {
      IsFileInDir(t, dir, n);
    }
  }

  /** Every regular file directly inside `dir` loads without raising. */
  ghost predicate FilesLoad<V, E>(t: Tree, dir: CPath, load: CPath -> Result<V, E>) {
    forall n :: IsFile(t, dir + [n]) ==> load(dir + [n]).Success?
  }

  /** The filtered listing loads in full exactly when every regular file inside `dir` loads. */
  lemma FilesInAllLoad<V, E>(t: Tree, dir: CPath, names: seq<Name>, load: CPath -> Result<V, E>)
    requires dir in t && Enumerates(names, t[dir])
    ensures AllLoad(dir, FilesIn(t, dir, names), load) <==> FilesLoad(t, dir, load)
  {
    var files := FilesIn(t, dir, names);
    if AllLoad(dir, files, load) {
      forall n | IsFile(t, dir + [n])
        ensures load(dir + [n]).Success?
      {
        IsFileInDir(t, dir, n);
        var i :| 0 <= i < |files| && files[i] == n;
      }
    }
  }

  /** Each value the store yields is loaded from a regular file inside `dir` with that stem. */
  lemma LoadedFromFiles<V, E>(t: Tree, dir: CPath, names: seq<Name>, load: CPath -> Result<V, E>)
    requires LoadAll(dir, FilesIn(t, dir, names), Stem, load).Success?
    ensures var m := LoadAll(dir, FilesIn(t, dir, names), Stem, load).value;
      forall k :: k in m ==> exists n :: IsFile(t, dir + [n]) && Stem(n) == k && load(dir + [n]) == Success(m[k])
  {
    var files := FilesIn(t, dir, names);
    var m := LoadAll(dir, files, Stem, load).value;
    forall k | k in m
      ensures exists n :: IsFile(t, dir + [n]) && Stem(n) == k && load(dir + [n]) == Success(m[k])
    {
      LoadAllTakesLast(dir, files, Stem, load, k);
      var i :| LastWithKey(files, Stem, i, k) && load(dir + [files[i]]) == Success(m[k]);
      assert files[i] in files;
    }
  }

  /** A failed load comes from a regular file inside `dir` whose load raised that error. */
  lemma LoadFailureFromFile<V, E>(t: Tree, dir: CPath, names: seq<Name>, load: CPath -> Result<V, E>)
    requires LoadAll(dir, FilesIn(t, dir, names), Stem, load).Failure?
    ensures exists n :: IsFile(t, dir + [n])
                        && load(dir + [n]) == Failure(LoadAll(dir, FilesIn(t, dir, names), Stem, load).error)
  {
    var files := FilesIn(t, dir, names);
    LoadAllFailsAtFirst(dir, files, Stem, load);
    var i :| 0 <= i < |files| && load(dir + [files[i]]) == Failure(LoadAll(dir, files, Stem, load).error)
             && AllLoad(dir, files[..i], load);
    assert files[i] in files;
  }

  /** What `unmarshal_data` raises: `os.listdir`'s error, or the first `resource_load` error. */
  datatype UnmarshalError<+E> = ListFailed(fsError: FsError) | LoadFailed(loadError: E)

  /**
   * The body of `unmarshal_data` once the marshal directory is known: a
   * missing directory reads as an empty store; otherwise every regular file
   * directly inside it is loaded under its stem. An existing path that is not a
   * directory makes `os.listdir` raise, and a load that raises ends the read
   * with its error.
   */
  function ReadStore<V, E>(t: Tree, dir: CPath, names: seq<Name>, load: CPath -> Result<V, E>)
    : (r: Result<map<string, V>, UnmarshalError<E>>)
    requires dir in t ==> Enumerates(names, t[dir])
    ensures !Exists(t, dir) ==> r == Success(map[])
    ensures r.Failure? && r.error.ListFailed? <==> Exists(t, dir) && dir !in t
    ensures r.Failure? && r.error.ListFailed? ==> r.error.fsError == NotADirectory(dir)
    ensures r.Failure? && r.error.LoadFailed? <==> dir in t && !FilesLoad(t, dir, load)
    ensures r.Failure? && r.error.LoadFailed? ==>
      exists n :: IsFile(t, dir + [n]) && load(dir + [n]) == Failure(r.error.loadError)
    ensures r.Success? ==> r.value.Keys == StoredNames(t, dir)
    ensures r.Success? ==> forall k :: k in r.value ==>
      exists n :: IsFile(t, dir + [n]) && Stem(n) == k && load(dir + [n]) == Success(r.value[k])
  {
    if !Exists(t, dir) then Success(map[])
    else if dir !in t then Failure(ListFailed(NotADirectory(dir)))
    else
      var files := FilesIn(t, dir, names);
      FilesInAllLoad(t, dir, names, load);
      match LoadAll(dir, files, Stem, load)
      case Failure(e) =>
        LoadFailureFromFile(t, dir, names, load);
        Failure(LoadFailed(e))
      case Success(m) =>
        FilesInStems(t, dir, names);
        LoadAllKeys(dir, files, Stem, load);
        LoadedFromFiles(t, dir, names, load);
        Success(m)
  }

  /**
   * `unmarshal_data`: the store read from the notebook's marshal directory.
   * A missing directory gives an empty map and no error.
   */
  function UnmarshalData<V, E>(t: Tree, notebookPath: string, realpath: string -> CPath,
                               names: seq<Name>, load: CPath -> Result<V, E>)
    : (r: Result<map<string, V>, UnmarshalError<E>>)
    requires KaleMarshalDir(notebookPath, realpath) in t ==>
               Enumerates(names, t[KaleMarshalDir(notebookPath, realpath)])
    ensures !Exists(t, KaleMarshalDir(notebookPath, realpath)) ==> r == Success(map[])
    ensures r.Failure? && r.error.ListFailed? <==>
      Exists(t, KaleMarshalDir(notebookPath, realpath)) && KaleMarshalDir(notebookPath, realpath) !in t
    ensures r.Failure? && r.error.LoadFailed? <==>
      KaleMarshalDir(notebookPath, realpath) in t && !FilesLoad(t, KaleMarshalDir(notebookPath, realpath), load)
    ensures r.Success? ==> r.value.Keys == StoredNames(t, KaleMarshalDir(notebookPath, realpath))
  {
    ReadStore(t, KaleMarshalDir(notebookPath, realpath), names, load)
  }

  /** Only regular files count: two listings with the same files give the same stored names. */
  lemma StoredNamesIgnoreSubdirectories(t1: Tree, t2: Tree, dir: CPath)
    requires dir in t1 && dir in t2
    requires forall n :: (n in t1[dir] && t1[dir][n] == File) <==> (n in t2[dir] && t2[dir][n] == File)
    ensures StoredNames(t1, dir) == StoredNames(t2, dir)
  {
  }

  /** The store holds no name exactly when the directory holds no regular file. */
  lemma StoredNamesEmpty(t: Tree, dir: CPath)
    ensures StoredNames(t, dir) == {} <==> dir !in t || forall n :: n in t[dir] ==> t[dir][n] != File
  {
    if dir in t && exists n :: n in t[dir] && t[dir][n] == File {
      var n :| n in t[dir] && t[dir][n] == File;
      assert Stem(n) in StoredNames(t, dir);
    }
  }

  /** What `explore_notebook` reports. */
  datatype Exploration = Exploration(isExploration: bool, stepName: string)

  /**
   * `explore_notebook`: a step is being explored when the step-name variable is
   * set to a non-empty value and the marshal directory exists.
   */
  function ExploreNotebook(env: Env, t: Tree, notebookPath: string, realpath: string -> CPath): (r: Exploration)
    ensures r.isExploration <==>
      PipelineStepEnv in env && env[PipelineStepEnv] != "" && Exists(t, KaleMarshalDir(notebookPath, realpath))
    ensures r.stepName == (if r.isExploration then env[PipelineStepEnv] else "")
  {
    var stepName := if PipelineStepEnv in env then env[PipelineStepEnv] else "";
    if stepName != "" && Exists(t, KaleMarshalDir(notebookPath, realpath)) then
      Exploration(true, stepName)
    else
      Exploration(false, "")
  }

  /**
   * `remove_marshal_dir`: deletes the marshal directory with everything below it
   * when it exists, and does nothing when it does not.
   */
  method RemoveMarshalDir(fs: FileSystem, notebookPath: string, realpath: string -> CPath)
    returns (r: Outcome<FsError>)
    requires fs.Valid()
    modifies fs
    ensures fs.Valid()
    ensures var dir := KaleMarshalDir(notebookPath, realpath);
      && (r.Fail? <==> old(Exists(fs.tree, dir)) && dir !in old(fs.tree))
      && (r.Fail? ==> r.error == NotADirectory(dir) && fs.tree == old(fs.tree))
      && (r.Pass? ==> fs.tree == RemoveTree(old(fs.tree), dir))
      && (!old(Exists(fs.tree, dir)) ==> fs.tree == old(fs.tree))
      && (r.Pass? ==> forall p :: Under(p, dir) ==> !Exists(fs.tree, p))
      && (r.Pass? ==> forall p :: !Under(p, dir) ==> (Exists(fs.tree, p) <==> old(Exists(fs.tree, p))))
  {
    var dir := KaleMarshalDir(notebookPath, realpath);
    RemovedSubtreeAbsent(fs.tree, dir);
    RemoveTreeKeepsOutside(fs.tree, dir);
    if Exists(fs.tree, dir) {
      r := fs.RmTree(dir);
    } else {
      RemoveAbsentIsNoOp(fs.tree, dir);
      r := Pass;
    }
  }

  /**
   * Once the marshal directory has been removed, the store reads as empty and
   * no step is in exploration mode, whatever the environment says.
   */
  lemma RemovedStoreReadsEmpty<V, E>(t: Tree, env: Env, notebookPath: string, realpath: string -> CPath,
                                     names: seq<Name>, load: CPath -> Result<V, E>)
    ensures !Exists(RemoveTree(t, KaleMarshalDir(notebookPath, realpath)), KaleMarshalDir(notebookPath, realpath))
    ensures UnmarshalData(RemoveTree(t, KaleMarshalDir(notebookPath, realpath)), notebookPath, realpath, names, load)
            == Success(map[])
    ensures ExploreNotebook(env, RemoveTree(t, KaleMarshalDir(notebookPath, realpath)), notebookPath, realpath)
            == Exploration(false, "")
  {
    RemovedPathAbsent(t, KaleMarshalDir(notebookPath, realpath));
  }
}
