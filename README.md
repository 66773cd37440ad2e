# darklua path require mode, modelled in Dafny

darklua rewrites Lua/Luau sources. Its *path require mode* decides how
`require("./some/path")` calls are resolved and re-emitted. This project models
that mode as implemented in `src/rules/require/path_require_mode.rs`:

- the mode's state, a module folder name (default `"init"`) and a map of alias
  sources, as the immutable datatype `PathRequire.PathRequireMode`;
- `load_luaurc`, which merges the `aliases` of a `.luaurc` file into a sources
  map under `@`-prefixed keys, as a method with a loop over the parsed aliases,
  specified by the function `Merge`;
- the two ways to build a mode (`Default`, `new`), both taking their sources
  from the convention file `./.luaurc`;
- `is_module_folder_name`, over a model of Rust's `Path` (module `RustPath`:
  Unix component parsing, `file_name`, `file_stem`, `pop`);
- `generate_require`, which pops the current file name, takes a path
  difference, turns `\` into `/`, prefixes `./` when the text does not start
  with `./`, and wraps the result in `[[ ]]`;
- `get_source` and the glue of `find_require`.

The file system, the JSON parser, `pathdiff::diff_paths`, the path locator and
`StringExpression::new` are collaborators outside the file; they enter the
model as parameters (a `FileSystem` function from path to open/parse outcome,
a `diff` function, a `locate` function and a `stringExpression` function).

Line 144 tests only for `./`, so a difference `../b.lua` is emitted as
`[[./../b.lua]]` (`RequireText`, `RequireTextForParent`);
`RequireTextKeepsMeaning` shows the extra `./` does not change the relative
path.

Files: `wrappers.dfy` (Option, Result), `rust_path.dfy`, `path_require_mode.dfy`,
`path_require_mode_tests.dfy` (the unit tests of the source file as lemmas,
plus examples of the alias merge and of the emitter).

## Model

| member | source | states |
|---|---|---|
| `PathRequire.GetDefaultModuleFolderName` | src/rules/require/path_require_mode.rs:60-65 | the default module folder name is `"init"` |
| `PathRequire.IsDefaultModuleFolderName` | src/rules/require/path_require_mode.rs:67-69 | holds exactly when the value equals the default folder name |
| `PathRequire.PathRequireMode.LoadLuaurc` | src/rules/require/path_require_mode.rs:79-101 | explicit path that cannot be opened: an I/O error naming that path; no path and no `./.luaurc`: the input map, unchanged, as success; a file that is not a `.luaurc` document: a parse error; otherwise success with `Merge(sources, aliases)`, built by a loop of inserts |
| `PathRequire.DecorateInjective` | src/rules/require/path_require_mode.rs:97 | two aliases share a decorated `@` key only when they are the same alias |
| `PathRequire.MergeKeys` | src/rules/require/path_require_mode.rs:80-100 | the merged keys are the starting keys plus `"@" + k` for each parsed alias `k`, and nothing else |
| `PathRequire.MergeKeepsOthers` | src/rules/require/path_require_mode.rs:96-100 | a starting entry whose key no alias decorates to is kept with its value |
| `PathRequire.MergeLastWins` | src/rules/require/path_require_mode.rs:96-98 | each alias is stored under `"@" + k` with the value of its last occurrence, overriding a starting entry of that key |
| `PathRequire.MergeOrderFree` | src/rules/require/path_require_mode.rs:18-19 | with unique alias names, as in a parsed JSON object, the iteration order of the aliases does not change the merged map |
| `PathRequire.PathRequireMode.DefaultSources` | src/rules/require/path_require_mode.rs:23-25 | the sources are the convention file's merged aliases, or empty when the file is absent or malformed |
| `PathRequire.PathRequireMode.Default` | src/rules/require/path_require_mode.rs:51-58 | folder name `"init"`, sources from the convention file |
| `PathRequire.PathRequireMode.New` | src/rules/require/path_require_mode.rs:72-77 | the given folder name, sources from the convention file exactly as for `Default` |
| `PathRequire.PathRequireMode.IsModuleFolderName` | src/rules/require/path_require_mode.rs:119-123 | for a parsed path: true iff the last component is a normal name that equals the folder name or is the folder name followed by exactly one extension |
| `PathRequireTests.NestedFileDecides` | src/rules/require/path_require_mode.rs:119-123 | for `folder/leaf`, the answer depends on `leaf` alone: it is the folder name, or the folder name plus one extension |
| `RustPath.Parse` | src/rules/require/path_require_mode.rs:121-122 | the components `Path` yields: a root or `.` only in front, normal names non-empty, without `/`, and neither `.` nor `..` |
| `RustPath.FileName` | src/rules/require/path_require_mode.rs:121 | defined exactly when the last component is a normal name, and then that name (a valid name for a parsed path) |
| `RustPath.StemOf` | src/rules/require/path_require_mode.rs:122 | the stem is a prefix of the name: the whole name, or the name minus exactly one extension |
| `RustPath.FileStem` | src/rules/require/path_require_mode.rs:122 | defined exactly when the file name is, and then the file name itself or the file name minus one extension |
| `RustPath.StemOfCharacterisation` | src/rules/require/path_require_mode.rs:122 | a file stem equal to `m` means the name is `m` or `m` plus one extension, and conversely |
| `PathRequire.PathRequireMode.GetSource` | src/rules/require/path_require_mode.rs:156-158 | the stored path for a present key, `None` for an absent one |
| `PathRequire.ConventionAliasesResolve` | src/rules/require/path_require_mode.rs:23-25 | a mode built from the convention file finds each declared alias under `"@" + k` with its value, and nothing under any other key |
| `PathRequire.PathRequireMode.FindRequire` | src/rules/require/path_require_mode.rs:103-117 | a call that is not a path require yields `Ok(None)`, never an error; otherwise the locator's path or the locator's error |
| `RustPath.Pop` | src/rules/require/path_require_mode.rs:131-132 | `pop` drops the last component unless there is none or it is the root |
| `PathRequire.PathRequireMode.GenerateRequire` | src/rules/require/path_require_mode.rs:125-152 | a failed path difference from the popped current path gives the "invalid path difference" error; otherwise the literal `[[` + `RequireText(diff)` + `]]`, or the literal constructor's error |
| `PathRequire.ToForwardSlashes` | src/rules/require/path_require_mode.rs:143 | same length, no backslash left, every backslash replaced by `/` and every other character kept |
| `PathRequire.ForwardSlashesFixed` | src/rules/require/path_require_mode.rs:143 | text without backslashes is left unchanged |
| `PathRequire.RequireText` | src/rules/require/path_require_mode.rs:137-146 | the text has no backslash and starts with `./`; a difference already starting with `./` is kept as it is, any other (including one starting with `../`) gets `./` in front |
| `PathRequire.RequireTextIdempotent` | src/rules/require/path_require_mode.rs:137-146 | emitting from an emitted text gives it back unchanged |
| `PathRequire.RequireTextKeepsMeaning` | src/rules/require/path_require_mode.rs:144-146 | for a relative difference, the emitted text denotes the same relative path (its components without `.`) |
| `PathRequire.AbsoluteDifferenceBecomesRelative` | src/rules/require/path_require_mode.rs:144-146 | every difference starting with `/` gets `./` in front; the emitted text has no root component and denotes the original path without its root |
| `PathRequire.LongBracket` | src/rules/require/path_require_mode.rs:148 | the literal is `[[`, then exactly the text, then `]]` |
| `PathRequireTests.DefaultModeIsFalseForRegularName` | src/rules/require/path_require_mode.rs:174-179 | `oops.lua` is not a module folder file for the default mode |
| `PathRequireTests.DefaultModeIsTrueForInitLua` | src/rules/require/path_require_mode.rs:181-186 | `init.lua` is |
| `PathRequireTests.DefaultModeIsTrueForInitLuau` | src/rules/require/path_require_mode.rs:188-193 | `init.luau` is |
| `PathRequireTests.DefaultModeIsTrueForFolderInitLua` | src/rules/require/path_require_mode.rs:195-200 | `folder/init.lua` is |
| `PathRequireTests.DefaultModeIsTrueForFolderInitLuau` | src/rules/require/path_require_mode.rs:202-207 | `folder/init.luau` is |
| `PathRequireTests.DefaultModeIsTrueForBareInit` | src/rules/require/path_require_mode.rs:119-123 | a bare `init` is (its file name matches) |
| `PathRequireTests.DefaultModeIsFalseForLongerName` | src/rules/require/path_require_mode.rs:119-123 | `myinit.lua` is not |
| `PathRequireTests.ConventionAliasOverridesStartingEntry` | src/rules/require/path_require_mode.rs:96-98 | starting `{"@a": "/x"}` merged with alias `a -> /y` gives `{"@a": "/y"}` |
| `PathRequireTests.RequireTextForSibling` | src/rules/require/path_require_mode.rs:144-146 | `b.lua` is emitted as `./b.lua` |
| `PathRequireTests.RequireTextForParent` | src/rules/require/path_require_mode.rs:144-146 | `../b.lua` is emitted as `./../b.lua` |
| `PathRequireTests.RequireTextForDotted` | src/rules/require/path_require_mode.rs:144-146 | `./b.lua` is emitted unchanged |
| `PathRequireTests.RequireTextForBackslashes` | src/rules/require/path_require_mode.rs:143-146 | `..\lib\b.lua` is emitted as `./../lib/b.lua` |

## Left out

- File I/O and JSON parsing (`File::open`, `serde_json::from_reader`, lines 85, 88, 95): the file system is the parameter `fs`, mapping each path to "cannot open (message)" or to the parsed document (the alias pairs, or the parser's message).
- The serde schema of the mode (`deny_unknown_fields`, field defaults, `skip_serializing_if`, lines 35-48) and `deserialize_sources` (lines 27-33): deserialization from a project configuration is not modelled; the precedence it relies on (convention aliases override given sources) is `MergeLastWins` with a non-empty starting map.
- `pathdiff::diff_paths` (line 133): an external crate; it is the parameter `diff`, which may return `None`.
- `StringExpression::new` (line 148): an AST constructor outside the file; it is the parameter `stringExpression`, giving its error message or `None` when it accepts the literal. The returned `Arguments::String` node is represented by its literal text; the `Option` around it is always `Some` and is dropped.
- The non-UTF-8 failure of `to_str` (lines 138-141): strings in the model are always text, so this error cannot arise.
- `match_path_require_call` and `RequirePathLocator` (lines 108-111, 162-164): `FindRequire` takes the extracted literal (or its absence) and a `locate` function in their place.
- `Context` (current path, project location, resources): the current path is passed directly; the unused `_current_mode` argument of `generate_require` is dropped.
- The `module_folder_name` accessor (lines 159-161): it is the datatype field.
- Path values in `sources` are strings rather than `PathBuf`.
- Windows path semantics (drive prefixes, `\` as a separator inside `Path`): `RustPath` follows Unix parsing; the `\` to `/` replacement of line 143 is modelled on the text.
- HashMap iteration order: the parsed aliases are a sequence in iteration order; `MergeOrderFree` shows the order is irrelevant when names are unique.
