# Environment helpers of `lib/my_env.py`, modelled in Dafny

`lib/my_env.py` is the bootstrap module shared by the scripts of the qsapi
project. Most of it configures logging, reads an INI file, dumps JSON and
starts subprocesses. Three pieces of it carry logic that can be stated:

- **`get_modulename`** takes a script path. It keeps the last path component,
  as `os.path.split` does, and strips the extension, as `os.path.splitext` does.
  The result names the script's log file.
- **`get_valid_path`** joins a file name onto a parent directory. When the
  platform rejects the name, it uses the sanitized name instead. It also writes
  an audit note `<sanitized>_changed.txt` into the parent directory, unless
  that note already exists.
- **`LoopInfo`** is a progress reporter for loops. It keeps a lifetime count
  and a since-last-report count. Every `triggercnt` iterations it prints a
  progress line. At the end it prints a summary.

The project has three modules, one per piece:

- `path_names.dfy`, module `PathNames`: POSIX `os.path.split`,
  `os.path.splitext` and `os.path.join`, plus `get_modulename`. The separator
  is `/` and the extension separator is `.`.
- `valid_path.dfy`, module `ValidPath`: `get_valid_path`, a pure function from
  a filesystem to a filesystem. The filesystem is a map from path to file
  text. The platform's rules are a `Platform` value holding two arbitrary total
  functions, "is this name valid" and "sanitize this name". `GetValidPaths`
  runs a series of calls on one parent directory. It is used to state what
  repeated calls do.
- `loop_info.dfy`, module `LoopProgress`: `LoopInfo` as an immutable state
  value, with one function per method. Each function returns the next state,
  the method's return value and the lines it prints. `Valid` is the invariant
  of every reachable state. `Repeat` drives `n` calls of `info_loop`.

Behaviour of the code worth noting:

- The audit note is keyed on the **sanitized** name, not the original one.
  Two different original names that sanitize to the same name share one note.
  That note records only the first of them (`SharedNoteRecordsFirstOnly`).
- The sanitized name is not checked again. Nothing in the model assumes it is
  valid.
- `info_loop` tests `loop_cnt >= triggercnt`, not equality. So a trigger count
  of 0 or less reports on every call (`ProgressEveryCall`).

## Model

| member | source | states |
|---|---|---|
| PathNames.Split | lib/my_env.py:43 | The tail has no `/`. It is a suffix of the path and is preceded by a `/` or by nothing, so it is the whole last component. The head is the part before the tail, with trailing slashes removed unless it is all slashes. |
| PathNames.SplitExt | lib/my_env.py:44 | Stem plus extension gives back the name. The extension is empty, or it starts with the name's only `.` after the stem and contains no `/`. |
| PathNames.SplitExtCharacterized | lib/my_env.py:44 | Against an independent definition: an extension is found exactly when some `.` is followed by no `.` or `/`, and is preceded in the same component by a character other than `.`. The extension is then the suffix from that dot. So leading dots belong to the stem. |
| PathNames.Join | lib/my_env.py:69 | `os.path.join` on POSIX: an absolute `b` replaces `a`; otherwise `b` is appended directly when `a` is empty or ends in `/`, and after exactly one inserted `/` otherwise. |
| PathNames.SplitJoin | lib/my_env.py:69 | Round trip: splitting `join(a, b)`, for a `b` without `/`, gives back `b` as tail. The head is `a` with trailing slashes normalised. |
| PathNames.ModuleName | lib/my_env.py:35-45 | The module name contains no `/`. It is a prefix of the last path component. What follows it is empty, or one `.` and a dot-free rest. Module name plus extension is the last component. |
| PathNames.ModuleNameOfJoin | lib/my_env.py:43-45 | The module name of `dir/file` is the stem of `file`, whatever `dir` is. |
| PathNames.ModuleNameExample | lib/my_env.py:43-45 | `lib/my_env.py` has module name `my_env`. |
| PathNames.ModuleNameDotfileExample | lib/my_env.py:43-45 | `home/.bashrc` has module name `.bashrc`: a leading dot is not an extension. |
| PathNames.SplitExtExample | lib/my_env.py:44 | `my_env.py` splits into `my_env` and `.py`. |
| PathNames.SplitExtDotfileExample | lib/my_env.py:44 | `.bashrc` has an empty extension. |
| ValidPath.GetValidPath | lib/my_env.py:48-69 | A valid name gives `join(parent, fn)` and leaves the filesystem unchanged. A rejected name gives `join(parent, sanitize(fn))`. Afterwards the note `parent/<sanitized>_changed.txt` exists. If the note was absent, it now holds `Name '<fn>' changed to '<sanitized>'`. If it was present, nothing changed. No existing file is altered, and no file other than that note is created. |
| ValidPath.GetValidPathIdempotent | lib/my_env.py:64-65 | A second call with the same parent and name returns the same path and leaves the filesystem as the first call left it. |
| ValidPath.GetValidPaths | lib/my_env.py:58-69 | Over a series of calls, call `i` returns `join(parent, fn_i)` or `join(parent, sanitize(fn_i))`, by validity. The returned path does not depend on the filesystem. |
| ValidPath.GetValidPathsKeepsFiles | lib/my_env.py:64-68 | A series of calls never changes or removes an existing file. |
| ValidPath.GetValidPathsNotesEveryRename | lib/my_env.py:64-68 | After a series of calls, the note of every rejected name exists. |
| ValidPath.GetValidPathsOnlyCreatesMarkers | lib/my_env.py:64-68 | A series of calls creates no file other than the notes of the rejected names. |
| ValidPath.GetValidPathsWritesNothingWhenNoted | lib/my_env.py:64-65 | A series of calls writes nothing once the notes of all rejected names exist. |
| ValidPath.GetValidPathsIdempotent | lib/my_env.py:64-65 | Repeating a series of calls returns the same paths and leaves the filesystem unchanged. |
| ValidPath.GetValidPathsNotesFirstRename | lib/my_env.py:60-68 | Every note a series of calls creates holds the rename of the first rejected name whose note has that path. |
| ValidPath.SharedNoteRecordsFirstOnly | lib/my_env.py:62-66 | Two rejected names that sanitize alike, with no note yet, leave one note. It records the first name only. |
| LoopProgress.New | lib/my_env.py:198-213 | Construction sets both counters to 0 and stores `attribname` and `triggercnt` unchanged. The state satisfies the invariant, and the start line is printed. |
| LoopProgress.InfoLoop | lib/my_env.py:215-227 | `rec_cnt` goes up by exactly 1, and the new value is returned. Label and trigger count are unchanged. At most one line, the progress line for the new count, is printed. From a valid state the result is valid, and a line is printed exactly when the new count is a multiple of a positive trigger count. With a trigger count of 0 or less, every call prints and `loop_cnt` stays 0. |
| LoopProgress.EndLoop | lib/my_env.py:229-232 | Returns `rec_cnt`, prints the summary line with it, and changes no field. |
| LoopProgress.RepeatKeepsValid | lib/my_env.py:221-227 | After `n` calls from a valid state, the state is still valid, `rec_cnt` has grown by `n`, and the label and trigger count are unchanged. |
| LoopProgress.ProgressAtMultiples | lib/my_env.py:222-226 | With `triggercnt >= 1`, after `n` calls from construction, `loop_cnt == n % triggercnt`. The progress lines are exactly those for counts `triggercnt`, `2*triggercnt`, …, so there are `n / triggercnt` of them. |
| LoopProgress.ProgressEveryCall | lib/my_env.py:222-226 | With `triggercnt <= 0`, after `n` calls there is a progress line for every count 1..n, and `loop_cnt` is 0. |
| LoopProgress.EndLoopCountsCalls | lib/my_env.py:229-232 | After `n` calls from construction, `end_loop` returns `n` and prints the summary for `n`. |
| LoopProgress.FirstReportAtTrigger | lib/my_env.py:222-226 | With trigger count N, the first progress line comes at call N, which also resets `loop_cnt` to 0. For N ≥ 2, call N+1 prints nothing more. |

## Left out

- `init_env` and `init_loghandler`: these set up process-wide logging. They read the `LOGDIR` and `LOGLEVEL` environment variables and the host name. There is no logic to state.
- `get_inifile`: it opens and parses an INI file and loads a `.env` file with third-party libraries. Its one branch turns a missing file into an empty mapping. The model has nothing to say about it.
- `dump_structure`: JSON serialisation is a foreign library, and the rest is `mkdir` plus a file write. Its name handling repeats the validate-or-sanitize choice of `get_valid_path`, without a note.
- `run_script`: it starts a subprocess.
- The rules of `pathvalidate` (`validate_filename`, `sanitize_filename`): the library is not part of this model, and its rules depend on the platform. They are arbitrary functions in `Platform`.
- Logging calls, `print` formatting and timestamps: printed lines are `Line` values without their time prefix. Log messages are not modelled.
- Filesystem failures: directories, permissions and a missing parent directory are not modelled. `os.path.isfile` is membership in the map, and writing a note always succeeds.
- `LoopInfo.attribname` is any Python object passed through `str()`. The model takes the resulting string.
- Calling `info_loop` after `end_loop` is allowed by the code and by the model. `EndLoop` returns the state unchanged, and nothing in the model forbids it.
- Byte-string paths and the Windows path rules of `os.path` are not modelled. Only POSIX `str` paths are.
