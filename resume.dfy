/**
 * `resume_notebook_path`: the notebook a resumed pipeline step should reopen,
 * taken from the environment and made relative to HOME so that the notebook
 * editor, which runs from HOME, can open it.
 */
module Resume {
  import opened Wrappers
  import opened FileTree
  import Marshal

  const NotebookPathEnv: string := "KALE_NOTEBOOK_PATH"
  const HomeEnv: string := "HOME"

  /**
   * What `resume_notebook_path` raises: a `RuntimeError` for a notebook path
   * that is not a file, or the `AttributeError` of calling `endswith` on the
   * missing HOME value.
   */
  datatype ResumeError = RuntimeError(message: string) | HomeUnset

  predicate StartsWith(s: string, prefix: string) {
    |prefix| <= |s| && s[..|prefix|] == prefix
  }

  /** HOME with one trailing slash added when it does not already end in one. */
  function WithTrailingSlash(home: string): (h: string)
    ensures |h| > 0 && h[|h| - 1] == '/'
    ensures StartsWith(h, home) && |h| <= |home| + 1
    ensures h == home <==> |home| > 0 && home[|home| - 1] == '/'
  {
    if |home| > 0 && home[|home| - 1] == '/' then home else home + "/"
  }

  /** The message of the error raised for a path that is not a file. */
  function NotAFileMessage(p: string): string {
    "env path " + NotebookPathEnv + "=" + p + " is not a file"
  }

  /** `KALE_NOTEBOOK_PATH` is present and not empty. */
  predicate NotebookPathSet(env: Marshal.Env) {
    NotebookPathEnv in env && env[NotebookPathEnv] != ""
  }

  /**
   * `resume_notebook_path`: nothing to resume when `KALE_NOTEBOOK_PATH` is unset
   * or empty; an error when it names something other than a file; otherwise the
   * path with the leading HOME (normalised to end in `/`) stripped, or the path
   * unchanged when it does not start with HOME. HOME is read only on that last
   * path, which fails when HOME is unset.
   */
  function ResumeNotebookPath(env: Marshal.Env, t: Tree, realpath: string -> CPath): (r: Result<Option<string>, ResumeError>)
    ensures r == Success(None) <==> !NotebookPathSet(env)
    ensures r.Failure? && r.error.RuntimeError? <==>
      NotebookPathSet(env) && !IsFile(t, realpath(env[NotebookPathEnv]))
    ensures r.Failure? && r.error.RuntimeError? ==> r.error.message == NotAFileMessage(env[NotebookPathEnv])
    ensures r == Failure(HomeUnset) <==>
      NotebookPathSet(env) && IsFile(t, realpath(env[NotebookPathEnv])) && HomeEnv !in env
    ensures r.Success? && r.value.Some? ==> NotebookPathSet(env) && HomeEnv in env
    ensures r.Success? && r.value.Some? ==>
      var p, home := env[NotebookPathEnv], WithTrailingSlash(env[HomeEnv]);
      && (StartsWith(p, home) ==> home + r.value.value == p)
      && (!StartsWith(p, home) ==> r.value.value == p)
  {
    var p := if NotebookPathEnv in env then env[NotebookPathEnv] else "";
    if p != "" && !IsFile(t, realpath(p)) then
      Failure(RuntimeError(NotAFileMessage(p)))
    else if p == "" then
      Success(None)
    else if HomeEnv !in env then
      Failure(HomeUnset)
    else
      var home := WithTrailingSlash(env[HomeEnv]);
      if StartsWith(p, home) then
        assert home + p[|home|..] == p by {
          assert p == p[..|home|] + p[|home|..];
        }
        Success(Some(p[|home|..]))
      else
        Success(Some(p))
  }

  /**
   * The resumed path is always a suffix of the configured one, strictly shorter
   * exactly when the configured path lies under HOME.
   */
  lemma ResumedPathIsSuffix(env: Marshal.Env, t: Tree, realpath: string -> CPath)
    ensures var r := ResumeNotebookPath(env, t, realpath);
      r.Success? && r.value.Some? ==>
        var p, x := env[NotebookPathEnv], r.value.value;
        && |x| <= |p| && p[|p| - |x|..] == x
        && (|x| < |p| <==> StartsWith(p, WithTrailingSlash(env[HomeEnv])))
  {
    var r := ResumeNotebookPath(env, t, realpath);
    if r.Success? && r.value.Some? {
      var p, x := env[NotebookPathEnv], r.value.value;
      var home := WithTrailingSlash(env[HomeEnv]);
      if StartsWith(p, home) {
        assert p == home + x;
        assert p[|p| - |x|..] == x;
      }
    }
  }

  /** A file configured as HOME followed by a relative path resumes at that relative path. */
  lemma ResumeUnderHome(env: Marshal.Env, t: Tree, realpath: string -> CPath, rel: string)
    requires HomeEnv in env && NotebookPathEnv in env
    requires env[NotebookPathEnv] == WithTrailingSlash(env[HomeEnv]) + rel
    requires IsFile(t, realpath(env[NotebookPathEnv]))
    ensures ResumeNotebookPath(env, t, realpath) == Success(Some(rel))
  {
    var home := WithTrailingSlash(env[HomeEnv]);
    var p := env[NotebookPathEnv];
    assert StartsWith(p, home) by {
      assert p[..|home|] == home;
    }
    assert p[|home|..] == rel;
  }
}
