/**
 * `checkShouldRunTypeChecks`: type checks are skipped when every file changed
 * since the base branch matches one of the ignore patterns. A pattern is an
 * exact path, a directory prefix ending in '/', or `**.<ext>` for a file-name
 * suffix.
 */
module ShouldRun {

  import opened Wrappers
  import opened Strings
  import opened Diff

  /** The patterns used when `pathsIgnore` is not given. */
  const DefaultPathsIgnore: seq<string> := [
    "LICENSE", ".editorconfig", ".gitignore", ".cspell.json", ".markdownlint-cli2.mjs",
    ".npmignore", ".prettierignore", ".prettierrc", "docs/", "**.md", "**.txt"
  ]

  /** The branch compared against when `baseBranch` is not given. */
  const DefaultBaseBranch: string := "origin/main"

  /** `{ pathsIgnore?, baseBranch? }` */
  datatype ShouldRunOptions = ShouldRunOptions(pathsIgnore: Option<seq<string>>, baseBranch: Option<string>)

  /** The test `pathsIgnore.some(...)` applies to one pattern, in its order of cases. */
  predicate PatternIgnores(pattern: string, file: string) {
    if pattern == file then true
    else if EndsWith(pattern, "/") && StartsWith(file, pattern) then true
    else if StartsWith(pattern, "**.") then EndsWith(Basename(file), pattern[2..])
    else false
  }

  /** Some pattern ignores the file. */
  predicate IsIgnored(patterns: seq<string>, file: string) {
    exists i :: 0 <= i < |patterns| && PatternIgnores(patterns[i], file)
  }

  /** `!files.every((file) => pathsIgnore.some(...))` */
  predicate ShouldRunTsChecks(files: seq<string>, patterns: seq<string>) {
    !forall j :: 0 <= j < |files| ==> IsIgnored(patterns, files[j])
  }

  /** What each form of pattern ignores. */
  lemma PatternKinds(pattern: string, file: string)
    ensures !EndsWith(pattern, "/") && !StartsWith(pattern, "**.") ==>
      (PatternIgnores(pattern, file) <==> file == pattern)
    ensures EndsWith(pattern, "/") && !StartsWith(pattern, "**.") ==>
      (PatternIgnores(pattern, file) <==> StartsWith(file, pattern))
    ensures StartsWith(pattern, "**.") && '/' !in pattern ==>
      (PatternIgnores(pattern, file) <==> EndsWith(Basename(file), pattern[2..]))
    ensures StartsWith(pattern, "**.") && EndsWith(pattern, "/") ==>
      (PatternIgnores(pattern, file) <==> StartsWith(file, pattern))
    ensures StartsWith(pattern, "**.") && '/' in pattern && !EndsWith(pattern, "/") ==>
      (PatternIgnores(pattern, file) <==> file == pattern)
  {
    if file == pattern {
      assert StartsWith(file, pattern) by {
        assert file[..|pattern|] == file;
      }
      if StartsWith(pattern, "**.") && '/' !in pattern {
        assert Basename(file) == file;
        assert EndsWith(file, pattern[2..]) by {
          assert file[|file| - |pattern[2..]|..] == pattern[2..];
        }
      }
    }
    if StartsWith(pattern, "**.") && EndsWith(pattern, "/") {
      NoDirectorySuffix(Basename(file), pattern[2..]);
    }
    if StartsWith(pattern, "**.") && '/' in pattern && !EndsWith(pattern, "/") {
      SlashedExtensionPattern(pattern, file);
    }
  }

  /** A `**.` pattern holding a '/' never matches a base name, so only the equal path is ignored. */
  lemma SlashedExtensionPattern(pattern: string, file: string)
    requires StartsWith(pattern, "**.") && '/' in pattern && !EndsWith(pattern, "/")
    ensures PatternIgnores(pattern, file) <==> file == pattern
  {
    var k :| 0 <= k < |pattern| && pattern[k] == '/';
    assert k >= 3 by {
      assert pattern[..3] == "**.";
    }
    assert pattern[2..][k - 2] == '/';
    NoSlashSuffix(Basename(file), pattern[2..]);
  }

  /** A name without '/' does not end with a string that holds a '/'. */
  lemma NoSlashSuffix(name: string, suffix: string)
    requires '/' !in name
    requires '/' in suffix
    ensures !EndsWith(name, suffix)
  {
  }

  /** A name without '/' does not end with a suffix that ends in '/'. */
  lemma NoDirectorySuffix(name: string, suffix: string)
    requires '/' !in name
    requires suffix != [] && suffix[|suffix| - 1] == '/'
    ensures !EndsWith(name, suffix)
  {
    if |suffix| <= |name| {
      assert name[|name| - |suffix|..][|suffix| - 1] == name[|name| - 1];
      assert name[|name| - 1] in name;
    }
  }

  /** A pattern equal to the file path always ignores it. */
  lemma ExactPatternIgnores(patterns: seq<string>, file: string)
    requires file in patterns
    ensures IsIgnored(patterns, file)
  {
    var i :| 0 <= i < |patterns| && patterns[i] == file;
    assert PatternIgnores(patterns[i], file);
  }

  /** A directory pattern ignores every path below it. */
  lemma DirectoryPatternIgnores(patterns: seq<string>, dir: string, file: string)
    requires dir in patterns && EndsWith(dir, "/") && StartsWith(file, dir)
    ensures IsIgnored(patterns, file)
  {
    var i :| 0 <= i < |patterns| && patterns[i] == dir;
    assert PatternIgnores(patterns[i], file);
  }

  /** With no changed file the checks never run. */
  lemma NoChangesNoRun(patterns: seq<string>)
    ensures !ShouldRunTsChecks([], patterns)
  {
  }

  /** More ignore patterns can only skip more; more changed files can only run more. */
  lemma ShouldRunMonotone(files: seq<string>, more: seq<string>, patterns: seq<string>, extra: seq<string>)
    requires ShouldRunTsChecks(files, patterns + extra)
    ensures ShouldRunTsChecks(files, patterns)
    ensures ShouldRunTsChecks(files + more, patterns + extra)
  {
    var j :| 0 <= j < |files| && !IsIgnored(patterns + extra, files[j]);
    forall i | 0 <= i < |patterns| ensures !PatternIgnores(patterns[i], files[j]) {
      assert (patterns + extra)[i] == patterns[i];
    }
    assert (files + more)[j] == files[j];
  }

  /** Under the defaults, Markdown and text files anywhere and everything under docs/ are ignored. */
  lemma DefaultsIgnoreDocumentation(file: string)
    requires EndsWith(Basename(file), ".md") || EndsWith(Basename(file), ".txt") || StartsWith(file, "docs/")
    ensures IsIgnored(DefaultPathsIgnore, file)
  {
    var ps := DefaultPathsIgnore;
    if StartsWith(file, "docs/") {
      assert PatternIgnores(ps[8], file);
    } else if EndsWith(Basename(file), ".md") {
      assert ps[9][2..] == ".md";
      assert PatternIgnores(ps[9], file);
    } else {
      assert ps[10][2..] == ".txt";
      assert PatternIgnores(ps[10], file);
    }
  }

  // ---------------------------------------------------------------------------
  // checkShouldRunTypeChecks

  /** The effect of one run of the check. */
  datatype CheckEffect =
    | ExitWithCode(code: int)                    // reading the diff failed: `process.exit(1)`
    | AppendOutput(path: string, line: string)   // `fs.appendFile(GITHUB_OUTPUT, line)`
    | NoEffect                                   // not running under GitHub Actions

  /** `${shouldRunTsChecks}` */
  function BoolText(b: bool): string {
    if b then "true" else "false"
  }

  /** The line written to the GitHub Actions output file. */
  function OutputLine(shouldRun: bool): string {
    "should_run=" + BoolText(shouldRun) + "\n"
  }

  /**
   * `checkShouldRunTypeChecks(options)` with `GITHUB_OUTPUT` read from the
   * environment as `githubOutput` and git run by `exec`.
   */
  function CheckShouldRunTypeChecks<E>(options: ShouldRunOptions, githubOutput: Option<string>,
                                       exec: (string, bool) -> Result<ExecOutput, E>): (r: CheckEffect)
    ensures var diff := GetDiffFrom(options.baseBranch.GetOr(DefaultBaseBranch), NoOptions, exec);
      && (diff.Err? <==> r == ExitWithCode(1))
      && (r.AppendOutput? <==> diff.Ok? && githubOutput.Some?)
      && (r.AppendOutput? ==>
            (r.path == githubOutput.value
             && r.line == OutputLine(ShouldRunTsChecks(diff.value, options.pathsIgnore.GetOr(DefaultPathsIgnore)))))
  {
    var patterns := options.pathsIgnore.GetOr(DefaultPathsIgnore);
    var base := options.baseBranch.GetOr(DefaultBaseBranch);
    match GetDiffFrom(base, NoOptions, exec)
    case Err(_) => ExitWithCode(1)
    case Ok(files) =>
      if githubOutput.Some? then AppendOutput(githubOutput.value, OutputLine(ShouldRunTsChecks(files, patterns)))
      else NoEffect
  }

  /** By default the diff is taken against origin/main, without deleted files. */
  lemma DefaultDiffCommand()
    ensures DiffCommand(DefaultBaseBranch, NoOptions) == "git diff --name-only origin/main --diff-filter=d"
  {
    DiffCommandForms(DefaultBaseBranch, NoOptions);
  }

  /** The output line reads back as the decision. */
  lemma OutputLineDecides(shouldRun: bool)
    ensures StartsWith(OutputLine(shouldRun), "should_run=")
    ensures EndsWith(OutputLine(shouldRun), "\n")
    ensures OutputLine(shouldRun)[|"should_run="|..|OutputLine(shouldRun)| - 1] == (if shouldRun then "true" else "false")
    ensures OutputLine(true) != OutputLine(false)
  {
    assert OutputLine(true)[11] != OutputLine(false)[11];
  }
}
