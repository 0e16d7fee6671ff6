# ts-repo-utils: the workspace build planner and the repository checks, in Dafny

This project models the core of `ts-repo-utils`, a set of maintenance tools
for TypeScript monorepos:

- **The workspace build planner** (`executeStages` and its helpers). It
  keeps each package's in-workspace dependencies. It sorts the packages
  dependency-first with a depth-first search. It cuts the sorted list into
  stages, where a stage holds every package whose dependencies are done,
  and reports a cycle when a pass finds nothing. It then runs the stages
  in order and stops at the first stage that fails. Each package's outcome
  is classified from its script table and from how its process ended.
- **`genIndex`**. It fills the configuration defaults. It decides which
  files a barrel file re-exports. It builds the `export * from` lines. It
  walks a directory tree and writes an index file into every directory
  that is not excluded.
- **`checkShouldRunTypeChecks`**. It holds the ignore-pattern matcher
  (exact path, directory prefix, `**.<ext>`) and decides whether type
  checks must run for a diff.
- **`getUntrackedFiles` and `getDiffFrom`**. They assemble the git command
  line and parse its output into file names.
- **`assertExt`**. It filters the files with a wrong extension, builds the
  ignore patterns, and composes the error message.

Modules:

| file | module | models |
|---|---|---|
| wrappers.dfy | Wrappers | `Option`, `Result` |
| seqs.dfy | Seqs | distinctness, element sets, subsequences |
| strings.dfy | Strings | `startsWith`/`endsWith`, `split`/`join`, `trim`, `${n}` for integers, `path.basename`/`path.extname` |
| workspace.dfy | Workspace | packages, `buildDependencyGraph`, `topologicalSortPackages` |
| stages.dfy | Stages | the stage partitioner, the stage driver, `executeStages`, `executeScript` |
| diff.dfy | Diff | `getUntrackedFiles`, `getDiffFrom` |
| shouldrun.dfy | ShouldRun | `checkShouldRunTypeChecks` |
| genindex.dfy | GenIndex | `fillConfig`, `shouldExportFile`, `generateIndexContent`, `generateIndexFileForDir` |
| assertext.dfy | AssertExt | `getFilesWithIncorrectExtension`, `assertExt` |

The code that updates state in place is written as methods with loop
invariants. The graph is filled in a loop. `visit` is recursive and
threads the visited set and the result list. The partition loop updates
the completed set and the stage list. The stage driver is a loop. The
directory walk pushes into two lists and recurses. Each method's
postcondition ties its result to a specification function, and the
properties are proved as lemmas about that function. The pure parts are
functions and lemmas.

Outside effects are parameters of the model:

- Running a command: `exec`.
- Running one stage: `run`, which says whether the stage succeeded.
- How a spawned process ended: `end`.
- Glob matching: `glob`.
- `fs.access`: `pathExists`.
- `path.relative(process.cwd(), ·)`: `relative`.
- The directory tree: a `Dir` value.
- The `GITHUB_OUTPUT` variable: `githubOutput`.

File writes are returned as values (`IndexWrite`, `CheckEffect`), and the
same goes for the message printed before `process.exit`.

## Model

| member | source | states |
|---|---|---|
| Workspace.PackageIndex | dist/functions/workspace-utils/execute-parallel.mjs:183 | `new Map(packages.map(p => [p.name, p]))`: the keys are exactly the package names, and a name maps to the last package that carries it |
| Workspace.InWorkspace | dist/functions/workspace-utils/execute-parallel.mjs:213 | a dependency is kept exactly when it is declared and is a workspace package name |
| Workspace.InWorkspaceKeepsOrder | dist/functions/workspace-utils/execute-parallel.mjs:213 | the kept dependencies are in declaration order |
| Workspace.BuildDependencyGraph | dist/functions/workspace-utils/execute-parallel.mjs:209-217 | the loop fills the map with one entry per package name: the in-workspace dependencies of the last package of that name |
| Workspace.WorkspaceGraphShape | dist/functions/workspace-utils/execute-parallel.mjs:209-217 | the graph's keys are the package names and every edge ends at a package name; with unique names, a package's entry is exactly its in-workspace dependencies in declared order |
| Workspace.EnterVisit | dist/functions/workspace-utils/execute-parallel.mjs:185-187 | marking an unvisited name visited keeps the traversal invariant: visited names are the finished ones plus the running chain, none repeated |
| Workspace.LeaveVisit | dist/functions/workspace-utils/execute-parallel.mjs:188-192 | once all dependencies are visited, appending the name to the result keeps the invariant, and, without a cycle, every finished name comes after its dependencies |
| Workspace.Visit | dist/functions/workspace-utils/execute-parallel.mjs:184-193 | the recursive visit grows the visited set and extends the result, and keeps the traversal invariant |
| Workspace.TopologicalSort | dist/functions/workspace-utils/execute-parallel.mjs:180-200 | the sorted list never repeats a name and holds exactly the input names, each mapped to its last package; without a cycle, every dependency comes strictly before its dependent |
| Workspace.Resolve | dist/functions/workspace-utils/execute-parallel.mjs:197-199 | mapping names that are all in the index gives one package per name, in the same order |
| Workspace.SortedIsPermutation | dist/functions/workspace-utils/execute-parallel.mjs:180-200 | with unique input names, the sorted list holds every input package exactly once |
| Workspace.CycleFromPath | dist/functions/workspace-utils/execute-parallel.mjs:184-193 | a dependency edge back onto the current path closes a cycle |
| Stages.NextStage | dist/functions/workspace-utils/execute-parallel.mjs:84-93 | one pass collects exactly the sorted packages that are not completed and whose dependencies are all completed |
| Stages.NextStageKeepsOrder | dist/functions/workspace-utils/execute-parallel.mjs:85-93 | a stage lists its packages in sorted order |
| Stages.CollectStage | dist/functions/workspace-utils/execute-parallel.mjs:84-93 | the inner loop builds exactly the next stage; packages pushed earlier in the same pass do not count as completed |
| Stages.MarkCompleted | dist/functions/workspace-utils/execute-parallel.mjs:98-100 | the completed set gains exactly the stage's names |
| Stages.StageGrows | dist/functions/workspace-utils/execute-parallel.mjs:97-100 | a non-empty stage strictly shrinks the set of names still to complete, so the loop terminates |
| Stages.PartitionStep | dist/functions/workspace-utils/execute-parallel.mjs:83-101 | one iteration of the while loop: the next stage, then the partition of what remains |
| Stages.PartitionStages | dist/functions/workspace-utils/execute-parallel.mjs:83-101 | the while loop returns the partition of the sorted packages, or the cycle error |
| Stages.PartitionOk | dist/functions/workspace-utils/execute-parallel.mjs:83-101 | every stage is non-empty and is the pass taken over the names completed before it |
| Stages.StagesValid | dist/functions/workspace-utils/execute-parallel.mjs:83-101 | stages are non-empty and in sorted order. No stage repeats an earlier name. Each package's dependencies are all in earlier stages. A stage holds every package ready at that point. Together the stages cover every sorted name |
| Stages.StagesDisjoint | dist/functions/workspace-utils/execute-parallel.mjs:83-101 | two different stages share no name |
| Stages.EveryPackageStaged | dist/functions/workspace-utils/execute-parallel.mjs:83-101 | with unique names, every sorted package is in some stage |
| Stages.PartitionStuck | dist/functions/workspace-utils/execute-parallel.mjs:94-96 | a failing partition fails with 'Circular dependency detected', because a pass came up empty while names remained |
| Stages.StuckHasCycle | dist/functions/workspace-utils/execute-parallel.mjs:94-96 | an empty pass while names remain implies the graph has a cycle |
| Stages.EdgeDescends | dist/functions/workspace-utils/execute-parallel.mjs:88-90 | a dependency is staged strictly earlier than its dependent |
| Stages.PathDescends | dist/functions/workspace-utils/execute-parallel.mjs:88-90 | along a dependency path the stage index strictly decreases, so a successful partition leaves no cycle |
| Stages.PartitionDetectsCycles | dist/functions/workspace-utils/execute-parallel.mjs:94-101 | the partition fails exactly when the graph has a cycle, and then with 'Circular dependency detected' |
| Stages.StageFailedMessage | dist/functions/workspace-utils/execute-parallel.mjs:118 | the message starts with `Stage <i+1> failed: ` (1-based) and ends with the stage's error message |
| Stages.FirstFailure | dist/functions/workspace-utils/execute-parallel.mjs:103-119 | the first failing non-empty stage: every non-empty stage before it passed; when there is none, every non-empty stage passed |
| Stages.Launched | dist/functions/workspace-utils/execute-parallel.mjs:103-108 | the started stages are exactly the non-empty ones before the bound, in increasing order |
| Stages.RunStages | dist/functions/workspace-utils/execute-parallel.mjs:103-121 | stages start in index order and empty ones are skipped. The driver stops at the first failing stage with `Stage <i+1> failed: <msg>`, and no later stage is started. Otherwise it succeeds after starting every non-empty stage |
| Stages.SortedStaging | dist/functions/workspace-utils/execute-parallel.mjs:79-101 | the partition of the sorted packages is a staging of the workspace. It is non-empty, disjoint, dependency-respecting and maximal, and it covers every package name |
| Stages.ExecuteStages | dist/functions/workspace-utils/execute-parallel.mjs:78-121 | the sorted list holds each workspace name once, mapped to its last package. With a cycle, the result is 'Circular dependency detected' and no stage starts. Without one, every dependency precedes its dependent in the sorted list, and the stages are exactly the partition of that list. So each stage lists its packages once each and in sorted order. The stages form a valid staging, and the driver reports as the stage runs dictate |
| Stages.ExecuteScript | dist/functions/workspace-utils/execute-parallel.mjs:134-172 | skipped exactly when the script is missing. Exit code 0 or null succeeds with code 0. Any other code fails with `<name> exited with code <code>`. A spawn error fails with its message |
| Stages.ExitMessageCode | dist/functions/workspace-utils/execute-parallel.mjs:160 | the exit message starts with the package name and the code reads back from its tail |
| Stages.ExitMessageInjective | dist/functions/workspace-utils/execute-parallel.mjs:160 | different exit codes give different messages |
| Strings.Basename | dist/functions/should-run.mjs:92 | the base name is a '/'-free suffix of the path, and the whole path when it has no '/' |
| Strings.BasenameAfterSlash | dist/functions/should-run.mjs:92 | with a '/' in the path, the base name is what follows the last '/' |
| Strings.BasenameOf | dist/functions/should-run.mjs:92 | the base name of `<dir>/<name>` is `name` |
| Strings.Extname | dist/functions/gen-index.mjs:157 | the extension is a suffix of the name. It is empty or starts with its only dot, and it is shorter than the name |
| Strings.ExtnameNonEmpty | dist/functions/gen-index.mjs:157 | the extension is non-empty exactly when the name is not `..` and has a dot after its first character, so it then runs from the last dot to the end |
| Strings.ExtnameOf | dist/functions/gen-index.mjs:157 | the extension of `<stem>.<ext>` is `.<ext>`, as in `a.ts` giving `.ts` |
| Strings.Stem | dist/functions/gen-index.mjs:191 | the name without its extension, followed by the extension, is the name |
| Strings.TrimIsTrimmed | dist/functions/diff.mjs:21 | `trim` leaves no whitespace at either end |
| Strings.TrimIdempotent | dist/functions/diff.mjs:21 | `trim` is idempotent |
| Strings.JoinSplit | dist/functions/diff.mjs:19-20 | joining the pieces of a split with the separator gives back the string |
| Strings.SplitJoin | dist/functions/gen-index.mjs:199 | splitting a join of separator-free pieces gives back the pieces |
| Strings.IntToStringRoundTrip | dist/functions/workspace-utils/execute-parallel.mjs:160 | the decimal text of an integer reads back as that integer |
| Diff.NonEmptyPartsKeeps | dist/functions/diff.mjs:12-13 | the filter keeps every non-empty part as often as it occurs, drops every empty one, and keeps the order |
| Diff.CommandLineParts | dist/functions/diff.mjs:28-34 | the filtered parts joined by single spaces: an empty part adds nothing, and a non-empty one adds a space and itself |
| Diff.UntrackedCommandForms | dist/functions/diff.mjs:7-13 | `git ls-files --others --exclude-standard`, with ` --deleted` exactly when excludeDeleted is explicitly false |
| Diff.DiffCommandForms | dist/functions/diff.mjs:28-34 | `git diff --name-only`, then the base when it is not empty, then ` --diff-filter=d` unless excludeDeleted is explicitly false |
| Diff.ParseFileList | dist/functions/diff.mjs:40-43 | every parsed file name is non-empty and trimmed |
| Diff.ParseKeepsLines | dist/functions/diff.mjs:19-22 | every line that is non-empty after trimming is kept, trimmed, as often as it occurs and in line order; only blank lines are dropped |
| Diff.TrimmedNonEmptyDropsBlank | dist/functions/diff.mjs:40-43 | a trailing empty line is dropped |
| Diff.ParseBlankOutput | dist/functions/diff.mjs:40-43 | empty output, or output that is one newline, gives no files |
| Diff.ParseRoundTrip | dist/functions/diff.mjs:40-43 | the names of git's output lines (trimmed, non-empty, one per line) parse back exactly |
| Diff.ParseRoundTripTerminated | dist/functions/diff.mjs:40-43 | the same when the output ends with a newline |
| Diff.GetUntrackedFiles | dist/functions/diff.mjs:5-24 | a failed command result is returned unchanged and nothing is parsed; otherwise the result is the parsed stdout of the assembled command |
| Diff.GetDiffFrom | dist/functions/diff.mjs:26-45 | a failed command result is returned unchanged and nothing is parsed; otherwise the result is the parsed stdout of the assembled command |
| Diff.DiffNamesTrimmed | dist/functions/diff.mjs:40-44 | every file name `getDiffFrom` returns is non-empty and trimmed |
| ShouldRun.PatternKinds | dist/functions/should-run.mjs:80-95 | A pattern of no special form ignores only the path it equals. A directory pattern ignores the paths that start with it. A '/'-free `**.<ext>` pattern ignores the files whose base name ends with `.<ext>`, keeping the dot. A `**.` pattern ending in '/' ignores the paths under it. Any other `**.` pattern holding a '/' ignores only the path it equals, since a base name holds no '/' |
| ShouldRun.ExactPatternIgnores | dist/functions/should-run.mjs:82-84 | a pattern equal to the file path ignores the file |
| ShouldRun.DirectoryPatternIgnores | dist/functions/should-run.mjs:86-88 | a pattern ending in '/' ignores every path that starts with it |
| ShouldRun.NoChangesNoRun | dist/functions/should-run.mjs:80 | an empty diff never runs the checks |
| ShouldRun.ShouldRunMonotone | dist/functions/should-run.mjs:80-95 | more patterns can only skip more; more changed files can only run more |
| ShouldRun.DefaultsIgnoreDocumentation | dist/functions/should-run.mjs:60-72 | under the default patterns, `.md` and `.txt` files anywhere and every path under `docs/` are ignored |
| ShouldRun.CheckShouldRunTypeChecks | dist/functions/should-run.mjs:59-98 | A failed diff exits with code 1. Otherwise `should_run=<decision>` is appended to GITHUB_OUTPUT exactly when it is set. The diff is taken against the given base branch or origin/main, and the patterns are the given ones or the defaults |
| ShouldRun.DefaultDiffCommand | dist/functions/should-run.mjs:73-75 | the default diff command is `git diff --name-only origin/main --diff-filter=d` |
| ShouldRun.OutputLineDecides | dist/functions/should-run.mjs:97 | the output line is `should_run=`, then `true` or `false`, then a newline, and the two decisions give different lines |
| GenIndex.ExcludePatternSet | dist/functions/gen-index.mjs:68-83 | the exclude set always holds the default patterns, plus the caller's list when one is given, and nothing else |
| GenIndex.FillConfig | dist/functions/gen-index.mjs:60-89 | a function-valued exclude stays a function; a pattern-based exclude always includes the defaults |
| GenIndex.FillConfigDefaults | dist/functions/gen-index.mjs:60-89 | the defaults are target extensions {.ts, .tsx}, index extension .ts, export extension .js and silent false; given values of these four are kept. The format command is passed through, and the target directories become the set of the one path or of the listed paths |
| GenIndex.FillConfigExclude | dist/functions/gen-index.mjs:68-83 | a function-valued exclude is used unchanged. Otherwise an entry is excluded exactly when one of the caller's patterns or one of the defaults matches its relative path or its file name |
| GenIndex.IndexExtensionsEnumerated | dist/functions/gen-index.mjs:141 | `^index\.[cm]?[jt]s[x]?$` accepts after `index.` exactly the twelve extensions js, ts, jsx, tsx and their c- and m-prefixed forms |
| GenIndex.IndexFileNameExamples | dist/functions/gen-index.mjs:163 | index.ts, index.mts and index.jsx are index files; index.d.ts is not |
| GenIndex.ShouldExportFile | dist/functions/gen-index.mjs:155-176 | a file is exported exactly when its extension is targeted, it is not an index file, and the exclude test rejects it |
| GenIndex.ExportStatements | dist/functions/gen-index.mjs:186-196 | one line per sub-directory and then one per file, each group in input order; the line count is their sum |
| GenIndex.ExportLineTarget | dist/functions/gen-index.mjs:187-194 | each line is `export * from "./<target>";` and gives back its target |
| GenIndex.ExportLineInjective | dist/functions/gen-index.mjs:187-194 | different targets give different lines |
| GenIndex.TargetsSingle | dist/functions/gen-index.mjs:187-194 | a sub-directory target and a file target hold no line break when the name and the export extension hold none |
| GenIndex.EmptyContent | dist/functions/gen-index.mjs:197-199 | the content is `export {};` exactly when there are no sub-directories and no files |
| GenIndex.ContentLines | dist/functions/gen-index.mjs:186-199 | the content splits on '\n' back into exactly the export lines, one per sub-directory and then one per file |
| GenIndex.GenerateIndexFileForDir | dist/functions/gen-index.mjs:100-140 | the recursive walk performs exactly the writes of the specification `DirRun`, and throws exactly its error |
| GenIndex.ErrorStops | dist/functions/gen-index.mjs:137-139 | after an entry throws, no further entry is processed |
| GenIndex.EntriesCollect | dist/functions/gen-index.mjs:106-131 | while nothing has thrown, the loop has collected exactly the non-excluded sub-directories and the exportable files, in listing order |
| GenIndex.DirIndexLast | dist/functions/gen-index.mjs:132-134 | A directory that does not throw writes its own `index<ext>` last. The file re-exports exactly its kept sub-directories and its exported files, in listing order |
| GenIndex.DirFailureNamesDir | dist/functions/gen-index.mjs:137-139 | a failure is reported as `Failed to generate index for directory <dirPath>: …` |
| GenIndex.DirWritesIndexFiles | dist/functions/gen-index.mjs:117-122 | A successful walk writes the index file of the directory and of every sub-directory it reaches, and no other file. Excluded sub-directories are not descended into |
| AssertExt.SingleExtension | dist/functions/assert-ext.mjs:15 | a single string extension acts as a one-element list |
| AssertExt.AbsoluteIgnorePatterns | dist/functions/assert-ext.mjs:67-70 | the given patterns or the defaults, in order: a relative pattern gets the prefix `<dir>/` and an absolute one is kept |
| AssertExt.IgnorePatternsAbsolute | dist/functions/assert-ext.mjs:70 | below an absolute directory, every ignore pattern is absolute |
| AssertExt.DefaultIgnores | dist/functions/assert-ext.mjs:67-68 | without patterns, `<dir>/tsconfig.json` and `<dir>/globals.d.*` are ignored |
| AssertExt.IncorrectFiles | dist/functions/assert-ext.mjs:75 | no kept file ends with an expected extension |
| AssertExt.IncorrectFilesExact | dist/functions/assert-ext.mjs:75 | the incorrect files are exactly the listed files that end with none of the extensions. Each one appears as often as it is listed, in listing order |
| AssertExt.GetFilesWithIncorrectExtension | dist/functions/assert-ext.mjs:65-76 | A missing directory ends the process. A throwing glob is reported as such. Otherwise the result is the incorrect files of the listing taken with the normalised ignore patterns |
| AssertExt.Flatten | dist/functions/assert-ext.mjs:23 | the flattened list is empty exactly when every list is |
| AssertExt.FlattenMembers | dist/functions/assert-ext.mjs:23 | a file is in the flattened list exactly when it is in one of the per-directory lists |
| AssertExt.GroupKeys | dist/functions/assert-ext.mjs:27-36 | the group keys are distinct and are exactly the keys that occur |
| AssertExt.GroupKeysOrder | dist/functions/assert-ext.mjs:27-38 | the groups come in the order in which their keys first occur, as the entries of `Arr.groupBy`'s `Map` do |
| AssertExt.GroupOfMembers | dist/functions/assert-ext.mjs:27-36 | a group holds exactly the directories whose key is the group's |
| AssertExt.GroupSizes | dist/functions/assert-ext.mjs:27-36 | the group sizes add up to the number of directories: every directory is in exactly one group |
| AssertExt.MessageParts | dist/functions/assert-ext.mjs:38-43 | one message part per group, in group order. Part g starts with the relative paths of group g's directories joined by `, ` (a single path alone), and ends with ` should have <key g> extension`, with nothing between the two |
| AssertExt.FirstMissing | dist/functions/assert-ext.mjs:66 | the first directory that does not exist: it is missing and every earlier one exists; none exactly when all exist |
| AssertExt.ErrorMessageLines | dist/functions/assert-ext.mjs:46-51 | the message splits back into the header, one `  - <file>` line per incorrect file in order, an empty line and the summary |
| AssertExt.AssertExtension | dist/functions/assert-ext.mjs:11-56 | a failing check always exits with code 1 |
| AssertExt.MissingDirectoryOutcome | dist/functions/assert-path-exists.mjs:24-28 | when a directory does not exist and every earlier one does, the check exits with code 1 and `Directory does not exist: <path>` |
| AssertExt.AssertExtensionOutcome | dist/functions/assert-ext.mjs:13-55 | The check passes exactly when every directory exists and none lists a wrongly named file; a directory whose glob throws counts as having none. A failure on files prints the header, then the files |

## Left out

- `executeParallel`'s bounded concurrency and fail-fast racing. A stage is one call of `run`, which only says whether the stage succeeded.
- Spawning `npm run`, streaming its output with a prefix, and everything written to the console. Only the skip and exit-code classification of `executeScript` is modelled.
- The mapping of non-`Error` rejections to 'Unknown error' / 'Unknown error message' in `executeScript`. A spawn error is modelled by its message.
- A `package.json` whose `scripts` is not a record. The script table is a map, and a missing table is an empty map.
- The partition loop's two inner `for` loops are separate methods (`Stages.CollectStage`, `Stages.MarkCompleted`) called from the `while` loop.
- `genIndex` itself is not part of this model. That covers the loop over the target directories, `assertPathExists`, the format command and the status lines. Its per-directory work, `generateIndexFileForDir`, is modelled.
- A failing `fs.writeFile` is not modelled; writes always succeed. A failing `fs.readdir` is modelled as an `Unreadable` directory.
- micromatch, fast-glob, `fs` and the shell are oracles.
- Node's `path` functions work on plain `/`-separated names. That excludes trailing slashes, `.`/`..` segments and normalisation. `path.join(dir, name)` is `dir + "/" + name`.
- `Object.keys(pkg.dependencies)` order is the order of the `dependencies` sequence.
- `format.mjs`, `exec-async.mjs`, `assert-path-exists.mjs` beyond its exit, the CLI commands and the re-export files are not part of this model.
- Diff.DiffCommand: the command is stated as the string handed to the shell. How the shell splits it into words is not modelled.
- AssertExt.AssertExtension: the directories are checked one after another, and the first missing directory in configuration order is the one reported. The source checks them concurrently with `Promise.all`, so which missing directory ends the process depends on timing.
- AssertExt.AssertExtension: the `console.error` for a directory whose check throws is not modelled. Only its effect, no files, is.
- GenIndex.FillConfig: the exclude patterns are a set, so the order in which `fillConfig`'s closure tries them is not modelled. It does not affect the result, which is a disjunction.
