# dds ports: file-tree relocation and three ports, in Dafny

This project models the part of the dds ports repository that prepares a
source distribution. Each port takes an upstream tree and reshapes it into
the layout dds expects:

- a `package.json` manifest at the root;
- one `library.json` per library;
- headers and sources moved below `include/` and `src/`;
- a few source files rewritten line by line.

The model has three layers:

1. **The file-tree operations of `dds_ports/fs.py`.**
   - A tree is a `map<Path, Node>`. A path is a sequence of segments, and a node is a directory, a text file or a manifest record.
   - Paths are lexical, as `PurePath` keeps them. A well-formed tree has no entry named `..`, `.` or the empty string, and every entry sits in a directory.
   - `move_files`, `copy_files`, `remove_files`, `remove_directory` and `filter_file_contents` are pure functions on trees, built from the underlying `pathlib`, `os` and `shutil` calls (`FileTree`).
   - Batches run left to right. When an error is raised, the tree stays as the earlier steps left it. A batch returns an `Outcome`: the tree plus the error, if any.
   - `Path.glob` is a ghost enumeration of the matching entries in an unspecified order.
   - `Relocation` and `Regroup` prove what a glob-driven move of a whole subtree does, and what several independent such moves do together.
2. **The sqlite3 port.**
   - The release table and its expansion into ports.
   - The amalgamation URL and its top directory.
   - The configuration preamble.
   - Extraction of the three members from the downloaded archive, which is given as a map from member name to content.
   - The two manifests.
3. **The googletest and taywee/args ports.**
   - The cloned checkout is an input tree.
   - Each port's `_munge_files_into_libs` plan, manifest records, `all_ports` list and include-rewriting line transform.
   - The two regular expressions are hand-coded as predicates on a line (`SrcIncludeAt`, `CatchIncludeAt`). The substitution functions are proved to act exactly where the pattern matches.

Modules follow the structure of the repository:

| module | file | models |
|---|---|---|
| `Results` | `results.dfy` | `Option` and `Result` |
| `Text` | `text.dfy` | numerals, `str.isspace`, `str.split`, reading text with universal newlines, splitting into lines |
| `Paths` | `paths.dfy` | `PurePath` prefix tests, `relative_to`, `into / relpath` |
| `Packages` | `packages.dfy` | package ids, semantic versions, manifest records |
| `FileTree` | `filetree.dfy` | the tree, `mkdir(parents=True, exist_ok=True)`, `unlink`, `rmtree`, `rename`, `copy2` |
| `Fs` | `fs.dfy` | `dds_ports/fs.py` |
| `Relocation` | `relocation.dfy` | a `move_files` of every entry below one directory |
| `Regroup` | `regroup.dfy` | several such moves in a row |
| `Sqlite3` | `sqlite3.dfy` | `ports/sqlite3_ports.py` |
| `Googletest` | `googletest.dfy` | `ports/googletest_ports.py` |
| `TayweeArgs` | `taywee_args.dfy` | `ports/taywee_args_ports.py` |

The googletest main files land one `src` deeper than the other library sources. The move of `gmock_main.cc` and `gtest_main.cc` uses `whence = libs/<lib>`, so the path kept below the new library is `src/<lib>_main.cc`. The files therefore land at `libs/<lib>-main/src/src/<lib>_main.cc` (`Googletest.MainTarget`, proved by `Googletest.MoveMainLands`).

## Model

| member | source | states |
|---|---|---|
| Paths.RelativeTo | dds_ports/fs.py:35 | `relative_to` gives a remainder exactly when `whence` is an ancestor of the path, and `whence` followed by that remainder is the path |
| Paths.RebaseKeepsRelativePath | dds_ports/fs.py:35-39 | the destination `into / relpath`, taken relative to `into`, is the source taken relative to `whence` |
| Paths.RebaseInjective | dds_ports/fs.py:39 | two sources below `whence` with the same destination are the same source |
| FileTree.MakeDirs | dds_ports/fs.py:42 | `mkdir(parents=True, exist_ok=True)` succeeds in a well-formed tree exactly when every existing entry on the way is a directory; it keeps every entry, adds only directories on the way, leaves the path a directory and, for a path with proper segment names, keeps the tree well-formed |
| FileTree.Unlink | dds_ports/fs.py:25 | `unlink` succeeds exactly on an existing non-directory, and then removes that entry alone |
| FileTree.RemoveTree | dds_ports/fs.py:19 | `rmtree` succeeds exactly on a directory, and then removes it and everything below it and nothing else |
| FileTree.Rename | dds_ports/fs.py:46 | a renamed file replaces a file at the destination; a renamed directory needs an empty or missing destination outside itself and carries its subtree; each success condition is also sufficient |
| FileTree.CarrySubtree | dds_ports/fs.py:46 | after a directory rename, an entry is either untouched outside both subtrees or the image of the corresponding entry below the source, with its content |
| FileTree.CopyFile | dds_ports/fs.py:67 | `copy2` of a file keeps the source, writes its content to the destination (or into it when it is a directory) and changes nothing else; it succeeds when the target's parent is a directory and the target is not one |
| Fs.Destination | dds_ports/fs.py:35-39 | the destination is defined exactly for a source strictly below `whence` whose first remaining part is not `..`; otherwise the error is `ValueError`, `IndexError` or the containment `RuntimeError`, as the case may be |
| Fs.TransferOne | dds_ports/fs.py:34-46 | a source without a destination raises before the tree changes; every iteration with a proper source and `into` keeps the tree well-formed |
| Fs.TransferAllSplit | dds_ports/fs.py:33-34 | a batch over a snapshotted list is its first part followed by the rest, and an error in the first part ends the batch with no rollback |
| Fs.GuardSeesFirstPartOnly | dds_ports/fs.py:35-39 | the containment check looks at the first part only: `w/a/../../x` relative to `w` passes it, and its destination `i/a/../../x` keeps both `..` parts unresolved |
| Fs.DestinationContained | dds_ports/fs.py:35-39 | for an entry of a well-formed tree and a proper `into` the check never fires: the destination exists exactly when the entry is below `whence`, and then it lies strictly below `into` with no `..` part |
| Fs.EscapeStopsBatch | dds_ports/fs.py:36-37 | a source whose remainder starts with `..` stops the batch with the containment error, with the earlier files left moved or copied |
| Fs.TransferSingle | dds_ports/fs.py:34-46 | a batch of one file is one iteration of the loop |
| Fs.TransferFile | dds_ports/fs.py:43-46 | a moved file is at its destination with its content and gone from its old place; a copied file is at both places; nothing else changes except new parent directories of the destination |
| Fs.TransferDirectory | dds_ports/fs.py:41-42 | a directory source only makes the destination directory; the source directory and every other entry stay |
| Fs.RemoveFilesExactly | dds_ports/fs.py:22-25 | `_remove_files` succeeds exactly when the list names distinct existing files, and then removes exactly those |
| Fs.RemoveDirectory | dds_ports/fs.py:18-19 | `remove_directory` succeeds exactly on a directory and removes its subtree; on failure the tree is unchanged |
| Fs.ReadText | dds_ports/fs.py:77 | reading succeeds exactly on a text file and yields its content with universal newlines applied |
| Fs.FilterOne | dds_ports/fs.py:76-84 | one iteration succeeds exactly on a text file and replaces its content with the filter applied to the text as read |
| Fs.FilterRewritesEachFile | dds_ports/fs.py:73-84 | filtering distinct text files succeeds, rewrites each listed file from its own content, keeps every other entry and keeps the set of paths |
| Fs.FilterStopsAtFirstFailure | dds_ports/fs.py:75-84 | the first entry that is not a text file stops the filter with that error, with the earlier files already rewritten |
| Fs.Glob | ports/googletest_ports.py:110 | the glob lists each matching entry of the tree exactly once, and nothing else |
| Relocation.RelocatePrefix | dds_ports/fs.py:32-46 | moving any prefix of an enumeration of a subtree succeeds and relocates exactly the entries moved so far |
| Relocation.MoveSubtree | ports/googletest_ports.py:55-59 | moving every entry below a directory, in any order, succeeds and relocates the subtree: each entry is at its rebased place with its content, the old files are gone, everything else stays, and the only new entries are the relocated ones and directories on the way |
| Regroup.SettingOf | ports/googletest_ports.py:55-59 | a move of one subtree into a fresh target satisfies what `MoveSubtree` needs, and its target is the rebased source |
| Regroup.FreshAfter | ports/googletest_ports.py:55-77 | relocating one subtree leaves every other separate target fresh |
| Regroup.Compose | ports/googletest_ports.py:55-77 | one relocation followed by the regrouping of the remaining moves is the regrouping of all of them |
| Regroup.RegroupSucceeds | ports/googletest_ports.py:55-77 | independent moves into fresh targets all succeed and regroup the tree |
| Text.TranslateNewlinesPlain | dds_ports/fs.py:77 | text without carriage returns reads back unchanged |
| Text.ConcatSplitLines | ports/googletest_ports.py:105-107 | writing out every line read reproduces the text |
| Text.SplitLinesConcat | ports/googletest_ports.py:105-107 | proper lines written out read back as the same lines |
| Text.SplitLinesProper | ports/googletest_ports.py:105 | every line read ends in a newline, except possibly the last |
| Text.SpanSpaceAt | ports/googletest_ports.py:102 | a greedy `\s*` run ends at the first non-whitespace character, wherever it is known to end |
| Text.ParseNatToString | ports/sqlite3_ports.py:117 | a printed number reads back as the same number |
| Text.NatToStringOfParse | ports/sqlite3_ports.py:117 | a canonical numeral is the printed form of the number it denotes |
| Text.PadLeft | ports/sqlite3_ports.py:117 | the `:0>2` format right-aligns in the field and fills on the left, keeping longer text as is |
| Text.ParseNatZeroPadded | ports/sqlite3_ports.py:117 | zero padding keeps a numeral's value |
| Text.JoinSplit | ports/taywee_args_ports.py:15 | joining the pieces of a split with the separator restores the string |
| Packages.VersionRoundTrip | ports/taywee_args_ports.py:15-25 | the version's printed form parses back to the version |
| Packages.ParsedVersionIsCanonical | ports/taywee_args_ports.py:15 | a string that parses as a version is the printed form of that version |
| Sqlite3.Expand | ports/sqlite3_ports.py:131-139 | the expansion has one port for each patch of each group |
| Sqlite3.ExpandMembers | ports/sqlite3_ports.py:131-139 | a port is listed exactly when some group lists its patch |
| Sqlite3.ReleaseTableSize | ports/sqlite3_ports.py:20-38 | the active table has 34 releases |
| Sqlite3.ReleaseTableIsNewestFirst | ports/sqlite3_ports.py:20-38 | the table lists releases newest first, with each group's patches ascending |
| Sqlite3.NewestFirstDistinct | ports/sqlite3_ports.py:131-139 | expanding a newest-first table lists each version once |
| Sqlite3.AllPortsDistinct | ports/sqlite3_ports.py:131-139 | `all_ports` yields 34 ports, no two of them the same version; each port's package id is `sqlite3` at its version, so no two ports share an id |
| Sqlite3.ExpandIds | ports/sqlite3_ports.py:108-112 | every port the release table expands to has the package id `('sqlite3', version)` |
| Sqlite3.ArchiveNumberValue | ports/sqlite3_ports.py:117 | the archive number read as a decimal is `major * 1000000 + minor * 10000 + patch * 100` when minor and patch fit in two digits |
| Sqlite3.ArchiveNumberInjective | ports/sqlite3_ports.py:117 | such releases have distinct archive numbers |
| Sqlite3.ArchiveUrlInjective | ports/sqlite3_ports.py:117 | such releases have distinct URLs, and the URL determines the year |
| Sqlite3.ArchiveUrlExample | ports/sqlite3_ports.py:117 | release 3.35.2 of 2021 downloads from `https://sqlite.org/2021/sqlite-amalgamation-3350200.zip` |
| Sqlite3.TopDir | ports/sqlite3_ports.py:86 | the top directory is a non-empty name without `/`; a URL without a name raises |
| Sqlite3.StemDropsExtension | ports/sqlite3_ports.py:86 | `with_suffix('')` drops a dot-free extension |
| Sqlite3.TopDirOfArchive | ports/sqlite3_ports.py:86 | the top directory of a release archive is its file name without `.zip` |
| Sqlite3.ConfigBlocksInOrder | ports/sqlite3_ports.py:58-64 | the default configuration is the configured macros' guarded blocks, each in its place |
| Sqlite3.PreambleGuardsEveryMacro | ports/sqlite3_ports.py:66-82 | the preamble contains the guarded default of every configured macro |
| Sqlite3.MakeSourceDirs | ports/sqlite3_ports.py:100 | making `src/sqlite3` in the empty directory creates `src` and `src/sqlite3` |
| Sqlite3.ExtractOne | ports/sqlite3_ports.py:101-105 | an archive member is written to `src/sqlite3/<name>` with the preamble in front, and the loop goes on with the rest |
| Sqlite3.ExtractAll | ports/sqlite3_ports.py:100-105 | with the three members present, extraction writes exactly the three prefixed files |
| Sqlite3.PrepSqlite3DirOfArchive | ports/sqlite3_ports.py:85-105 | `prep_sqlite3_dir` on a release URL reads the members below the archive's top directory |
| Sqlite3.PrepareSdistTree | ports/sqlite3_ports.py:115-128 | the distribution is the three prefixed sources plus the two manifests, and nothing else |
| Sqlite3.PrepareSdistMissingHeader | ports/sqlite3_ports.py:101-103 | a missing `sqlite3.h` raises `KeyError` with only `src/sqlite3` created |
| Sqlite3.PackageManifestVersion | ports/sqlite3_ports.py:121-126 | the manifest's version string reads back as the release's version |
| Sqlite3.PackageManifestNamesPort | ports/sqlite3_ports.py:112-125 | the `package.json` of a listed port carries its package id: the name `sqlite3` and a version that reads back as the id's version |
| Googletest.MatchIsGreedy | ports/googletest_ports.py:102 | wherever the include pattern matches, its whitespace runs are the ones a greedy scan finds |
| Googletest.StripSrcIncludeExactly | ports/googletest_ports.py:102-106 | a line changes exactly when the pattern matches, and then only the `src/` after the quote goes |
| Googletest.StripKeepsLine | ports/googletest_ports.py:104-107 | the substitution keeps a line a line: it never removes or adds a newline |
| Googletest.StripExampleRemoves | ports/googletest_ports.py:102-106 | `#include "src/a.h"` becomes `#include "a.h"` |
| Googletest.StripExampleIndented | ports/googletest_ports.py:102-106 | leading whitespace and a tab before the quote are accepted |
| Googletest.StripExampleAngle | ports/googletest_ports.py:102-106 | an angle-bracket include is left alone |
| Googletest.StripExampleNoSpace | ports/googletest_ports.py:102-106 | without whitespace before the quote nothing changes |
| Googletest.DelSrcFromIncLineByLine | ports/googletest_ports.py:104-107 | the output has as many lines as the input, each the rewritten input line |
| Googletest.DelSrcFromIncUnchanged | ports/googletest_ports.py:104-107 | a text with no matching line is written back unchanged |
| Googletest.MakePort | ports/googletest_ports.py:14-16 | a port exists exactly for a well-formed version, and then keeps the tag, names `googletest` and prints back the version |
| Googletest.AllPortsListed | ports/googletest_ports.py:125-132 | `all_ports` is the ports of 1.11.0 and 1.10.0 with their release tags, in that order |
| Googletest.TagsNameTheirVersions | ports/googletest_ports.py:126-129 | each tag is `release-` followed by its port's version |
| Googletest.LibraryUsesResolve | ports/googletest_ports.py:27-41 | the four library names are distinct, every `uses` names abseil or an earlier library, and the package depends on abseil |
| Googletest.WriteLibraryJsonsExactly | ports/googletest_ports.py:43-52 | with the library directories present every manifest is written, only those paths are added, and every other entry stays |
| Googletest.WriteLibraryJsonsLastWins | ports/googletest_ports.py:43-52 | a library's manifest holds the last record written under its name |
| Googletest.LibraryManifestsWritten | ports/googletest_ports.py:35-52 | each of the four manifests holds its own library's record |
| Googletest.RemoveDirectoriesExactly | ports/googletest_ports.py:83-85 | removing separate directories succeeds exactly when each is a directory, and removes exactly their subtrees |
| Googletest.CleanupDocs | ports/googletest_ports.py:81-82 | `docs` is removed when it is a directory, skipped when missing, and an error otherwise |
| Googletest.CleanupExactly | ports/googletest_ports.py:79-85 | the clean-up succeeds exactly when root `library.json` is a file and `ci`, `googletest` and `googlemock` are directories (`docs` may be missing); it then removes those and nothing else |
| Googletest.MoveMainLands | ports/googletest_ports.py:89-99 | each main file lands at `libs/<lib>-main/src/src/<lib>_main.cc` with its content and leaves its old place; the only other new entries are the new library's directories |
| Googletest.LibPathBack | ports/googletest_ports.py:55-77 | the place a checkout entry is moved to and the entry it came from are inverse to each other |
| Googletest.RegroupLayout | ports/googletest_ports.py:55-77 | the four moves succeed on a checkout without `libs` and put every library entry at its new path under `libs` |
| Googletest.MungeLayout | ports/googletest_ports.py:54-99 | on a checkout `_munge_files_into_libs` succeeds and leaves the library sources under `libs/<lib>`, the main files in their own libraries and the rest minus the removed directories |
| Googletest.RewriteIncludesExactly | ports/googletest_ports.py:109-111 | when every `.cc` entry is a file the rewrite succeeds, filters each of them and keeps every other entry |
| Googletest.ExampleCheckoutShape | ports/googletest_ports.py:116-123 | a concrete checkout (the top-level `library.json`, `ci`, the two library trees and their main files) meets every condition the layout lemmas assume, and `prepare_sdist` succeeds on it |
| Googletest.PrepareSdistLayout | ports/googletest_ports.py:116-123 | from a checkout `prepare_sdist` succeeds with the package and four library manifests, every moved source rewritten in its new place and the rest of the checkout filtered |
| TayweeArgs.CatchMatchIsGreedy | ports/taywee_args_ports.py:60 | wherever the catch pattern matches, its whitespace run is the one a greedy scan finds |
| TayweeArgs.FixCatchLineExactly | ports/taywee_args_ports.py:60-64 | a line changes exactly when the pattern matches at column 0, and then only by `catch2/` after the opening delimiter |
| TayweeArgs.FixCatchLineIdempotent | ports/taywee_args_ports.py:60-64 | fixing a line twice is fixing it once |
| TayweeArgs.FixKeepsLine | ports/taywee_args_ports.py:64 | the substitution keeps a line a line |
| TayweeArgs.DropConfigMain | ports/taywee_args_ports.py:65-66 | no kept line starts with `#define CATCH_CONFIG_MAIN`, and no more lines come out than went in |
| TayweeArgs.DropConfigMainKeeps | ports/taywee_args_ports.py:62-66 | exactly the lines not starting with the definition are kept |
| TayweeArgs.DropConfigMainNone | ports/taywee_args_ports.py:65-66 | without such a line nothing is dropped |
| TayweeArgs.DropConfigMainOrder | ports/taywee_args_ports.py:62-66 | the kept lines are a subsequence of the input |
| TayweeArgs.DropConfigMainProper | ports/taywee_args_ports.py:62-66 | dropping lines leaves proper lines |
| TayweeArgs.FixCatchIncludeLines | ports/taywee_args_ports.py:62-66 | the output text reads back as exactly the kept, substituted lines |
| TayweeArgs.FixExampleQuoted | ports/taywee_args_ports.py:60-64 | `#include "catch.hpp"` becomes `#include "catch2/catch.hpp"` |
| TayweeArgs.FixExampleLoose | ports/taywee_args_ports.py:60-64 | mismatched delimiters and any character for the dot are accepted |
| TayweeArgs.FixExampleIndented | ports/taywee_args_ports.py:60-64 | an indented include is left alone |
| TayweeArgs.FixExampleDropsMain | ports/taywee_args_ports.py:62-66 | the definition line goes and the line after it stays |
| TayweeArgs.MakePort | ports/taywee_args_ports.py:14-16 | a port exists exactly for a well-formed version, and then its tag is the version string and its package is `taywee-args` at that version |
| TayweeArgs.AllPortsListed | ports/taywee_args_ports.py:81-83 | `all_ports` is the one port of 6.2.7, whose tag is its version |
| TayweeArgs.PackageManifestNamesPort | ports/taywee_args_ports.py:22-30 | the package manifest names the port's package, its version reads back, and it declares no dependencies |
| TayweeArgs.MungeNeedsTestAndCatch | ports/taywee_args_ports.py:42-43 | the munging fails without a `test/` directory, and with `FileNotFoundError` when `catch.hpp` is missing |
| TayweeArgs.MoveIntoNewDir | ports/taywee_args_ports.py:45-55 | moving a top-level file into a new top-level directory makes the directory and puts the file in it |
| TayweeArgs.RenameTest | ports/taywee_args_ports.py:57 | the final rename moves the test source to `src/args.test.cxx` |
| TayweeArgs.MungeLayout | ports/taywee_args_ports.py:40-57 | on a checkout the munging succeeds: `test/` and `catch.hpp` are gone, `args.hxx` is in `include/`, `test.cxx` is `src/args.test.cxx`, and every other entry stays |
| TayweeArgs.RewriteChildrenExactly | ports/taywee_args_ports.py:68-70 | when the `.cxx` entries directly in a directory are files, the rewrite filters each of them and keeps every other entry |
| TayweeArgs.RewriteChildrenOfNothing | ports/taywee_args_ports.py:68-70 | with nothing below the directory the glob is empty and the rewrite changes nothing |
| TayweeArgs.AssembleLayout | ports/taywee_args_ports.py:75-77 | the munging and both manifests succeed on a checkout and give the munged tree with the manifests at the root |
| TayweeArgs.PrepareSdistAsWrittenLayout | ports/taywee_args_ports.py:72-79 | as written the distribution is the assembled tree with no file filtered |
| TayweeArgs.PrepareSdistLayout | ports/taywee_args_ports.py:72-79 | with the rewrite aimed at `src/`, the distribution is the assembled tree with `src/args.test.cxx` filtered |
| TayweeArgs.ConfigMainSurvivesAsWritten | ports/taywee_args_ports.py:68-70 | as written a `#define CATCH_CONFIG_MAIN` line of `test.cxx` is still there in `src/args.test.cxx` |
| TayweeArgs.CorrectedDropsConfigMain | ports/taywee_args_ports.py:62-70 | corrected, `src/args.test.cxx` is the checkout's lines filtered, and none of them starts with the definition |
| TayweeArgs.FindingExample | ports/taywee_args_ports.py:42-70 | for a checkout whose `test.cxx` is the definition line, the written code keeps it and the corrected code drops it |
| TayweeArgs.Contrast | ports/taywee_args_ports.py:42-70 | on every checkout the written code ships `test.cxx` unfiltered, while the corrected one filters it |

## Left out

- The thread pool and `run_in_executor` (dds_ports/fs.py:9-15, 28-29, 49-50, 70-71, 86). Each operation runs to completion, one after another.
- The `print` logging (dds_ports/fs.py:24, 45, 66, 83).
- The temporary file of `filter_file_contents`: its placement and the cross-device rename (dds_ports/fs.py:78, 84). These are OS behaviour. The filter's output replaces the file, and nothing is orphaned.
- Encoding. Text is a string of characters. `UTF-8` decoding errors and binary content are not modelled. Manifests are records, not JSON text, so the indentation is left out too. One consequence: `Fs.ReadText` fails with `NotText` on a written `package.json` or `library.json`, where `open(..., "r")` would read the JSON text. No port filters a manifest.
- `FileTree.CopyFile`: `shutil.copy2` also copies the file's metadata (`copystat`: permission bits, timestamps). A node has no metadata, so only the content is copied.
- `Fs.Destination`: paths are lexical. The tree operations resolve neither `.`, `..` nor symbolic links. The check at dds_ports/fs.py:36 inspects only the first part below `whence`, so a source such as `w/a/../../x` passes it (`Fs.GuardSeesFirstPartOnly`), and the operating system would place the file outside `into`. The model keeps such a path as it is. No tree entry has a `..` part, so the path names no entry. The model's iteration makes the destination's parent directories literally and then fails with `NotFound`, where the operating system would move the file. Every entry of a well-formed tree gets a destination below `into` (`Fs.DestinationContained`), and the globs the ports pass yield only entries.
- Fetching:
  - the aiohttp download and `zipfile` parsing (ports/sqlite3_ports.py:87-99): the archive is a map from member name to content;
  - `git.temporary_git_clone` and `util.temporary_directory`: not part of this model. The cloned checkout is an input tree.
- Semantic versions. A version is a triple of naturals that prints as `major.minor.patch`. `VersionInfo.parse` accepts exactly such strings here; pre-release and build parts are not modelled.
- `Sqlite3.ArchiveNumberInjective`: assumes minor and patch below 100. Above that the `:0>2` fields grow, and different releases can share an archive number. The active table stays well below.
- General regular expressions. Only the two patterns the ports use are modelled, each as a predicate with a hand-written greedy matcher.
- `Fs.Glob`: the order of the results is left open. `Path.glob` yields in directory order. All properties about globbed batches hold for every order.
- `Fs.Glob`: laziness is not modelled. `Path.glob` is a generator consumed while the filter rewrites files. The rewrite changes no paths, so the result is the same.
- `Fs.Glob`: only the two pattern shapes the ports use are modelled: `**/*` suffixes below a base and `*` suffixes directly in a base.
- `Regroup.RegroupSucceeds`: it covers moves into fresh targets only. The googletest checkout has no `libs` directory, so that is the case that occurs.
- The asynchronous context managers of `prepare_sdist` yield a temporary directory whose lifetime is not modelled. The result is the final tree.

## Findings

| source | as written | input that shows it | evidently intended | confidence | as-written member | corrected member |
|---|---|---|---|---|---|---|
| ports/taywee_args_ports.py:68-70 | the include rewrite globs the `.cxx` files of `test/`, which line 42 has already removed, so no file is filtered and `src/args.test.cxx` keeps its `#include "catch.hpp"` and `#define CATCH_CONFIG_MAIN` lines | `TayweeArgs.ExampleCheckout`: a checkout whose `test.cxx` is the line `#define CATCH_CONFIG_MAIN` | filter the `.cxx` files of `src/`, where lines 51-57 put the test source | not executed | TayweeArgs.ConfigMainSurvivesAsWritten | TayweeArgs.CorrectedDropsConfigMain |
