# Kale notebook RPC handlers, modelled in Dafny

Kale turns a tagged Jupyter notebook into a Kubeflow pipeline. The notebook
extension calls a small set of RPC handlers in `kale/rpc/nb.py`. This project
models the handlers that carry their own logic:

- **The marshal store.** A pipeline step saves every variable it exports into a
  hidden directory beside the notebook, named `"." + basename + ".kale.marshal.dir"`
  (`_get_kale_marshal_dir`). When the step is reopened in the notebook editor,
  the following happens:
  - `unmarshal_data` loads each regular file of that directory under the file's
    name without its extension;
  - `explore_notebook` reports whether the step is being explored;
  - `remove_marshal_dir` deletes the directory afterwards.
- **The resume path.** `resume_notebook_path` turns the absolute path in
  `KALE_NOTEBOOK_PATH` into a path relative to HOME, which is the form the
  editor opens.
- **The tagged-cell handlers.** `get_pipeline_parameters` and
  `get_pipeline_metrics` reject a notebook with no tagged cell. Otherwise they
  parse its source. Parameters are flattened into `[name, type, value]` rows.

Modules:

- `PosixPath` has `basename`, `dirname`, `join` and `splitext` as POSIX path
  strings define them, including their edge cases:
  - a root made of slashes only is kept;
  - trailing slashes are stripped from the directory part;
  - an absolute second argument replaces the first in `join`;
  - leading dots are not an extension.
- `FileTree` is the filesystem as a map from each canonical directory to its
  listing. Each entry of a listing is a regular file or a subdirectory. Its
  `FileSystem` class holds that map and changes it in place with `RmTree`
  (`shutil.rmtree`).
- `Marshal` holds the marshal store.
- `Resume` holds the resume path.
- `Handlers` holds the two tagged-cell handlers.
- `Wrappers` has the `Option`, `Result` and `Outcome` types used for
  raised errors.

Calls into code outside this file are parameters of the model:

| Call | Parameter |
|---|---|
| `os.path.realpath` | `realpath`, from a path string to a canonical path |
| the order of `os.listdir` | `names`, which must list each entry exactly once |
| `resource_load` | `load`, which returns a value or raises an error |
| `nbformat.read` | `read` |
| the tagged-cell source locators | `locate` |
| the static parsers | `parse` |

The process environment is a map from variable names to values. Python
exceptions are values:

- `FsError` for `rmtree` and `listdir`;
- `UnmarshalError` for `unmarshal_data`: the listing error, or the error of the first `resource_load` that raised;
- `ResumeError` for `resume_notebook_path`;
- `Exception` and `RpcError` for the handlers.

## Model

| member | source | states |
|---|---|---|
| PosixPath.BaseName | kale/rpc/nb.py:125 | the base name has no slash, is a suffix of the path, and is preceded by a slash when shorter than the path |
| PosixPath.DirName | kale/rpc/nb.py:126 | the directory part is a prefix that leaves room for the base name; it is empty exactly when the path has no slash; only slashes lie between it and the base name; it is empty, all slashes, or does not end in a slash |
| PosixPath.Join | kale/rpc/nb.py:129 | an absolute second part is the result; otherwise the result is the first part, then exactly one slash when the first part is non-empty and does not already end in one (none otherwise), then the second part |
| PosixPath.SplitJoin | kale/rpc/nb.py:125-129 | joining a directory part with a slash-free name and splitting the result again gives back that name as base name and that directory as directory part |
| PosixPath.SplitExt | kale/rpc/nb.py:140 | root followed by extension is the input; a non-empty extension starts with its only dot and contains no slash |
| PosixPath.SplitExtFindsExtension | kale/rpc/nb.py:140 | the extension is non-empty exactly when the final component has a dot after some non-dot character |
| PosixPath.Stem | kale/rpc/nb.py:140 | the stem is a prefix of the file name |
| PosixPath.StemKeepsNameWithoutExtension | kale/rpc/nb.py:140 | a name is its own stem exactly when it has no extension |
| PosixPath.StemStripsLastExtension | kale/rpc/nb.py:140 | for a slash-free root holding some non-dot, followed by a dot and a dot-free tail, the stem is exactly that root: only the last extension is removed (`model.tar.gz` becomes `model.tar`) |
| PosixPath.StemKeepsLeadingDot | kale/rpc/nb.py:140 | a slash-free name whose only dot is its first character is its own stem: a leading dot is not an extension (`.foo` stays `.foo`) |
| FileTree.Exists | kale/rpc/nb.py:134 | `os.path.exists`: every directory of the tree exists, and so does every entry listed in an existing directory |
| FileTree.IsFile | kale/rpc/nb.py:138 | `os.path.isfile`: a path listed as a regular file in its parent directory, and every such path exists |
| FileTree.ExistsIsDirOrFile | kale/rpc/nb.py:134-138 | in a well-formed tree a path exists exactly when it is a directory or a regular file, and never both |
| FileTree.RemoveTree | kale/rpc/nb.py:159 | after `rmtree(d)` the directories are those not at or below `d`; every listing is unchanged except that `d`'s parent loses `d` |
| FileTree.RemovedSubtreeAbsent | kale/rpc/nb.py:159 | nothing at or below the removed directory exists afterwards |
| FileTree.RemovedPathAbsent | kale/rpc/nb.py:159 | the removed directory itself does not exist afterwards, neither as a directory nor as an entry of its parent |
| FileTree.RemoveTreeKeepsOutside | kale/rpc/nb.py:159 | existence and file-ness of every path outside the removed subtree are unchanged |
| FileTree.RemoveTreeConsistent | kale/rpc/nb.py:159 | removing a subtree keeps the tree well formed |
| FileTree.RemoveAbsentIsNoOp | kale/rpc/nb.py:158-159 | removing a path that does not exist changes nothing |
| FileTree.RemoveTreeIdempotent | kale/rpc/nb.py:156-159 | removing the same subtree twice is the same as removing it once |
| FileTree.FileSystem.RmTree | kale/rpc/nb.py:159 | deletes a directory and its subtree in place, keeping the tree well formed; raises and changes nothing for a missing path or a non-directory |
| Marshal.MarshalDirName | kale/rpc/nb.py:127-128 | the marshal directory's name is hidden (starts with a dot) and is a single path component |
| Marshal.MarshalDirPath | kale/rpc/nb.py:124-129 | the marshal path's base name is `"." + basename + ".kale.marshal.dir"` and its directory part is the notebook's own |
| Marshal.KaleMarshalDir | kale/rpc/nb.py:124-129 | `_get_kale_marshal_dir`: the result is the canonical form of a path whose directory part is the notebook's and whose base name is `"." + basename + ".kale.marshal.dir"` |
| Marshal.MarshalDirPathInjective | kale/rpc/nb.py:125-129 | two notebooks share a marshal path exactly when they share directory part and base name; different base names never collide |
| Marshal.FilesIn | kale/rpc/nb.py:137-138 | the filtered listing holds exactly the listed names that are regular files inside the directory |
| Marshal.LoadAll | kale/rpc/nb.py:140-142 | the dict comprehension succeeds exactly when every listed file loads without raising |
| Marshal.LoadAllFailsAtFirst | kale/rpc/nb.py:140-142 | a failed comprehension raises the error of the first file in listing order whose load raised, every earlier file having loaded |
| Marshal.LoadAllKeys | kale/rpc/nb.py:140-142 | on success the dict comprehension's keys are exactly the keys of the loaded files |
| Marshal.LoadAllTakesLast | kale/rpc/nb.py:140-142 | each value is loaded from the last listed file with that key, so later files overwrite earlier ones |
| Marshal.FilesInStems | kale/rpc/nb.py:137-142 | the stems of the filtered listing are the stems of the directory's regular files, whatever order the listing has |
| Marshal.FilesInAllLoad | kale/rpc/nb.py:137-142 | the filtered listing loads in full exactly when every regular file directly inside the directory loads |
| Marshal.LoadFailureFromFile | kale/rpc/nb.py:140-142 | a failed load reports an error that loading some regular file inside the directory raised |
| Marshal.LoadedFromFiles | kale/rpc/nb.py:140-142 | every loaded value comes from a regular file inside the directory whose stem is its key |
| Marshal.ReadStore | kale/rpc/nb.py:134-142 | a missing directory gives an empty map and no error; an existing non-directory raises `NotADirectory`; a regular file whose load raises makes the read fail with an error that file's load raised; otherwise the keys are exactly the stems of the regular files directly inside, each value loaded from such a file |
| Marshal.UnmarshalData | kale/rpc/nb.py:132-142 | on the notebook's marshal directory: missing gives an empty map and no error; a non-directory raises the listing error; the load error is raised exactly when some regular file inside fails to load; on success the keys are exactly the stems of the regular files directly inside (where the error and each value come from is stated on `Marshal.ReadStore`, which it applies to that directory) |
| Marshal.StoredNamesIgnoreSubdirectories | kale/rpc/nb.py:137-138 | subdirectories contribute no key: two listings with the same regular files give the same stored names |
| Marshal.StoredNamesEmpty | kale/rpc/nb.py:137-142 | the store is empty exactly when the directory is missing or holds no regular file |
| Marshal.ExploreNotebook | kale/rpc/nb.py:145-153 | exploration is reported exactly when `KALE_PIPELINE_STEP` is set and non-empty and the marshal path exists, with that step name; otherwise `false` with `""` |
| Marshal.RemoveMarshalDir | kale/rpc/nb.py:156-159 | a missing marshal path leaves the filesystem unchanged without error; an existing directory is removed with its subtree, nothing below it exists afterwards and nothing outside it changes; an existing non-directory raises and changes nothing |
| Marshal.RemovedStoreReadsEmpty | kale/rpc/nb.py:132-159 | once the marshal directory is removed it does not exist, unmarshalling gives an empty map and no step is in exploration mode |
| Resume.WithTrailingSlash | kale/rpc/nb.py:31-33 | the normalised HOME ends in a slash, extends HOME by at most that slash, and equals HOME exactly when HOME already ends in one |
| Resume.ResumeNotebookPath | kale/rpc/nb.py:24-41 | `None` exactly when `KALE_NOTEBOOK_PATH` is unset or empty; the "is not a file" error exactly when it names a non-file; an error when HOME is unset on the path that reads it; otherwise `home + r == p` when `p` starts with the normalised HOME, and `r == p` when it does not |
| Resume.ResumedPathIsSuffix | kale/rpc/nb.py:38-41 | the resumed path is a suffix of the configured one, strictly shorter exactly when the configured path lies under HOME |
| Resume.ResumeUnderHome | kale/rpc/nb.py:31-39 | a file configured as normalised HOME plus a relative path resumes at exactly that relative path |
| Handlers.Translate | kale/rpc/nb.py:92-94 | the `except ValueError` clause: exactly a ValueError becomes an internal error, with the exception's message as details and the request's transaction id; any other exception propagates unchanged (`get_pipeline_metrics` ends with the same clause) |
| Handlers.ParameterRows | kale/rpc/nb.py:96 | one `[name, type, value]` row per parsed parameter, in the parser's order |
| Handlers.RowsRoundTrip | kale/rpc/nb.py:96 | the rows give back the parsed parameters: flattening loses nothing and keeps the order |
| Handlers.GetPipelineParameters | kale/rpc/nb.py:78-100 | an exception from reading the notebook, or from parsing a non-empty source, is translated by the `except ValueError` clause (ValueError to internal error with its message and the transaction id, others propagated unchanged); an empty tagged source fails with the internal error naming the tag; success exactly when reading and parsing return, with one row per parameter in order |
| Handlers.GetPipelineMetrics | kale/rpc/nb.py:103-121 | the same protocol for metrics: exceptions from reading or from parsing a non-empty source are translated by the `except ValueError` clause, an empty source fails with the internal error naming the tag, and on success the parsed metrics are returned unchanged |
| Handlers.NoParametersMessageNamesTag | kale/rpc/nb.py:86-89 | the missing-parameters message names the `` `pipeline-parameters` `` tag |
| Handlers.NoMetricsMessageNamesTag | kale/rpc/nb.py:111-114 | the missing-metrics message names the `` `pipeline-metrics` `` tag |
| Handlers.EmptyParametersSourceSkipsParser | kale/rpc/nb.py:86-91 | with an empty tagged source the parameter parser is never consulted: any two parsers give the same result |
| Handlers.EmptyMetricsSourceSkipsParser | kale/rpc/nb.py:111-116 | with an empty tagged source the metrics parser is never consulted: any two parsers give the same result |

## Left out

- `compile_notebook`, `list_volumes` and `get_base_image` (kale/rpc/nb.py:44-75) have no logic of their own. They delegate to the Kale engine, to pipeline compilation and to pod introspection, which are not part of this model.
- Logging and the `tabulate` table (kale/rpc/nb.py:81, 93, 97-99, 106, 118, 120) produce output only and are not modelled.
- `os.path.realpath` is an arbitrary function from path strings to canonical paths. Symlink resolution and relative paths against the working directory are not modelled. The collision property is therefore stated on the path before resolution.
- `nbformat.read`, the tagged-cell source locators, the static parsers and `resource_load` are parameters. Their own behaviour is not part of this model.
- Marshal.LoadAllTakesLast: which of two files with the same stem wins depends on the order `os.listdir` returns. The model takes that order as a parameter and promises only the key set and the later-wins rule.
- Marshal.ReadStore: when several files fail to load, which error is raised also depends on the listing order. Its contract promises only that the error comes from a regular file in the directory; `Marshal.LoadAllFailsAtFirst` states the first-in-order rule.
- Marshal.UnmarshalData: requires that `names` lists the marshal directory's entries exactly once each, as `os.listdir` does. It does not model entries that appear or vanish between the listing and the loads.
- Marshal.RemoveMarshalDir: the store may change between the existence test and the removal, for example when another step process writes to it. That interleaving is not modelled.
- Resume.ResumeNotebookPath: an unset HOME is modelled as the error value `HomeUnset`. In Python it is the `AttributeError` of calling `endswith` on `None`.
- Other filesystem errors (permissions, I/O failures) are not modelled. Only missing paths and non-directories are.
