/**
 * `getUntrackedFiles` and `getDiffFrom`: the git command line each one
 * assembles, and the parsing of the command's standard output into a list of
 * file names. Running the command is a parameter (`exec`).
 */
module Diff {

  import opened Wrappers
  import opened Strings
  import opened Seqs

  /** `{ excludeDeleted?, silent? }`; both default as in the source. */
  datatype DiffOptions = DiffOptions(excludeDeleted: Option<bool>, silent: Option<bool>)

  const NoOptions: DiffOptions := DiffOptions(None, None)

  /** What the shell helper resolves with when the command succeeds. */
  datatype ExecOutput = ExecOutput(stdout: string, stderr: string)

  // ---------------------------------------------------------------------------
  // Command lines

  /** `parts.filter((s) => s !== '')` */
  function NonEmptyParts(parts: seq<string>): (r: seq<string>)
    ensures forall i :: 0 <= i < |r| ==> r[i] != ""
  {
    if |parts| == 0 then []
    else
      var kept := NonEmptyParts(parts[..|parts| - 1]);
      if parts[|parts| - 1] == "" then kept else kept + [parts[|parts| - 1]]
  }

  /**
   * The filter keeps every non-empty part, as often as it occurs, in order:
   * the result is a subsequence that drops exactly the empty parts.
   */
  lemma {:induction false} NonEmptyPartsKeeps(parts: seq<string>)
    ensures forall i :: 0 <= i < |parts| && parts[i] != "" ==> parts[i] in NonEmptyParts(parts)
    ensures forall t :: multiset(NonEmptyParts(parts))[t] == if t == "" then 0 else multiset(parts)[t]
    ensures IsSubsequence(NonEmptyParts(parts), parts)
  {
    if |parts| > 0 {
      var init, last := parts[..|parts| - 1], parts[|parts| - 1];
      NonEmptyPartsKeeps(init);
      assert parts == init + [last];
      assert multiset(parts) == multiset(init) + multiset{last};
      if last == "" {
        SubsequenceSkip(NonEmptyParts(init), init, last);
      } else {
        SubsequenceKeep(NonEmptyParts(init), init, last);
      }
      assert forall i :: 0 <= i < |init| ==> parts[i] == init[i];
    }
  }

  /** `[...].filter((s) => s !== '').join(' ')` */
  function CommandLine(parts: seq<string>): string {
    Join(NonEmptyParts(parts), " ")
  }

  /** The command `getUntrackedFiles` runs. */
  function UntrackedCommand(options: DiffOptions): string {
    CommandLine(["git ls-files --others --exclude-standard",
                 if options.excludeDeleted.GetOr(true) then "" else "--deleted"])
  }

  /** The command `getDiffFrom(base, options)` runs. */
  function DiffCommand(base: string, options: DiffOptions): string {
    CommandLine(["git diff --name-only", base,
                 if options.excludeDeleted.GetOr(true) then "--diff-filter=d" else ""])
  }

  /** Appending a part to the list appends it to the non-empty parts unless it is empty. */
  lemma NonEmptyPartsSnoc(parts: seq<string>, x: string)
    ensures NonEmptyParts(parts + [x]) == NonEmptyParts(parts) + (if x == "" then [] else [x])
  {
    assert (parts + [x])[..|parts|] == parts;
  }

  /** The non-empty parts of a two- and a three-part command. */
  lemma NonEmptyParts3(a: string, b: string, c: string)
    requires a != ""
    ensures NonEmptyParts([a, b]) == [a] + (if b == "" then [] else [b])
    ensures NonEmptyParts([a, b, c]) == [a] + (if b == "" then [] else [b]) + (if c == "" then [] else [c])
  {
    NonEmptyPartsSnoc([], a);
    assert [] + [a] == [a];
    NonEmptyPartsSnoc([a], b);
    assert [a] + [b] == [a, b];
    NonEmptyPartsSnoc([a, b], c);
    assert [a, b] + [c] == [a, b, c];
  }

  /** `join` of one, two and three parts. */
  lemma JoinSmall(a: string, b: string, c: string, sep: string)
    ensures Join([a], sep) == a
    ensures Join([a, b], sep) == a + sep + b
    ensures Join([a, b, c], sep) == a + sep + b + sep + c
  {
    assert [a, b][1..] == [b];
    assert [a, b, c][1..] == [b, c];
    assert Join([b, c], sep) == b + sep + c by {
      assert [b, c][1..] == [c];
    }
  }

  /** A command of a non-empty head and two optional parts, joined by single spaces. */
  lemma CommandLineParts(a: string, b: string, c: string)
    requires a != ""
    ensures CommandLine([a, b]) == a + (if b == "" then "" else " " + b)
    ensures CommandLine([a, b, c]) == a + (if b == "" then "" else " " + b) + (if c == "" then "" else " " + c)
  {
    NonEmptyParts3(a, b, c);
    if b == "" {
      assert NonEmptyParts([a, b]) == [a];
      JoinSmall(a, b, c, " ");
      if c == "" {
        assert NonEmptyParts([a, b, c]) == [a];
      } else {
        assert NonEmptyParts([a, b, c]) == [a, c];
        JoinSmall(a, c, c, " ");
      }
    } else {
      assert NonEmptyParts([a, b]) == [a, b];
      JoinSmall(a, b, c, " ");
      if c == "" {
        assert NonEmptyParts([a, b, c]) == [a, b];
      } else {
        assert NonEmptyParts([a, b, c]) == [a, b, c];
      }
    }
  }

  /** `--deleted` is added exactly when `excludeDeleted` is explicitly false. */
  lemma UntrackedCommandForms(options: DiffOptions)
    ensures UntrackedCommand(options) == "git ls-files --others --exclude-standard"
      + (if options.excludeDeleted == Some(false) then " --deleted" else "")
  {
    var flag := if options.excludeDeleted.GetOr(true) then "" else "--deleted";
    CommandLineParts("git ls-files --others --exclude-standard", flag, "");
  }

  /**
   * The diff command filters out deleted files unless `excludeDeleted` is
   * explicitly false, and an empty base is dropped rather than left as a
   * double space.
   */
  lemma DiffCommandForms(base: string, options: DiffOptions)
    ensures DiffCommand(base, options) ==
      "git diff --name-only" + (if base == "" then "" else " " + base)
      + (if options.excludeDeleted == Some(false) then "" else " --diff-filter=d")
  {
    var flag := if options.excludeDeleted.GetOr(true) then "--diff-filter=d" else "";
    CommandLineParts("git diff --name-only", base, flag);
  }

  // ---------------------------------------------------------------------------
  // Output parsing

  /** The trimmed lines, `.map((s) => s.trim())`. */
  function Trims(lines: seq<string>): (r: seq<string>)
    ensures |r| == |lines|
    ensures forall i :: 0 <= i < |lines| ==> r[i] == Trim(lines[i])
  {
    seq(|lines|, i requires 0 <= i < |lines| => Trim(lines[i]))
  }

  /** `.map((s) => s.trim()).filter((s) => s !== '')` */
  function TrimmedNonEmpty(lines: seq<string>): (r: seq<string>)
    ensures forall i :: 0 <= i < |r| ==> r[i] != "" && IsTrimmed(r[i])
  {
    if |lines| == 0 then []
    else
      var kept := TrimmedNonEmpty(lines[..|lines| - 1]);
      var t := Trim(lines[|lines| - 1]);
      TrimIsTrimmed(lines[|lines| - 1]);
      if t == "" then kept else kept + [t]
  }

  /**
   * The filter keeps exactly the non-blank trimmed lines, each as often as
   * it occurs, in line order.
   */
  lemma {:induction false} TrimmedNonEmptyKeeps(lines: seq<string>)
    ensures forall i :: 0 <= i < |lines| && Trim(lines[i]) != "" ==> Trim(lines[i]) in TrimmedNonEmpty(lines)
    ensures forall t :: multiset(TrimmedNonEmpty(lines))[t] == if t == "" then 0 else multiset(Trims(lines))[t]
    ensures IsSubsequence(TrimmedNonEmpty(lines), Trims(lines))
  {
    if |lines| > 0 {
      var init, last := lines[..|lines| - 1], lines[|lines| - 1];
      TrimmedNonEmptyKeeps(init);
      var kept := TrimmedNonEmpty(init);
      assert Trims(lines) == Trims(init) + [Trim(last)];
      assert multiset(Trims(lines)) == multiset(Trims(init)) + multiset{Trim(last)};
      if Trim(last) == "" {
        SubsequenceSkip(kept, Trims(init), Trim(last));
      } else {
        SubsequenceKeep(kept, Trims(init), Trim(last));
      }
      forall i | 0 <= i < |lines| && Trim(lines[i]) != "" ensures Trim(lines[i]) in TrimmedNonEmpty(lines) {
        if i < |lines| - 1 {
          assert lines[i] == init[i];
        }
      }
    }
  }

  /** The file list read from a command's standard output, one name per line. */
  function ParseFileList(stdout: string): (r: seq<string>)
    ensures forall i :: 0 <= i < |r| ==> r[i] != "" && IsTrimmed(r[i])
  {
    TrimmedNonEmpty(Split(stdout, '\n'))
  }

  /**
   * Each line whose trimmed text is non-empty is listed, trimmed, as often
   * as it occurs, in line order; only blank lines are dropped.
   */
  lemma ParseKeepsLines(stdout: string)
    ensures forall i :: 0 <= i < |Split(stdout, '\n')| && Trim(Split(stdout, '\n')[i]) != "" ==>
      Trim(Split(stdout, '\n')[i]) in ParseFileList(stdout)
    ensures forall t :: t != "" ==> multiset(ParseFileList(stdout))[t] == multiset(Trims(Split(stdout, '\n')))[t]
    ensures IsSubsequence(ParseFileList(stdout), Trims(Split(stdout, '\n')))
  {
    TrimmedNonEmptyKeeps(Split(stdout, '\n'));
  }

  /** A file name as git prints it: non-empty, no surrounding blanks, one line. */
  predicate IsFileName(f: string) {
    f != "" && IsTrimmed(f) && '\n' !in f
  }

  /** Lines that are already trimmed and non-empty pass the filter unchanged. */
  lemma {:induction false} TrimmedNonEmptyOfNames(files: seq<string>)
    requires forall i :: 0 <= i < |files| ==> IsFileName(files[i])
    ensures TrimmedNonEmpty(files) == files
  {
    if |files| > 0 {
      var init := files[..|files| - 1];
      TrimmedNonEmptyOfNames(init);
      TrimOfTrimmed(files[|files| - 1]);
      assert files == init + [files[|files| - 1]];
    }
  }

  /** A trailing empty line is dropped. */
  lemma TrimmedNonEmptyDropsBlank(lines: seq<string>)
    ensures TrimmedNonEmpty(lines + [""]) == TrimmedNonEmpty(lines)
  {
    assert (lines + [""])[..|lines|] == lines;
    assert Trim("") == "";
  }

  /** Joining with a terminating newline adds one empty last line. */
  lemma {:induction false} JoinNewlineTerminated(files: seq<string>)
    requires |files| >= 1
    ensures Join(files, "\n") + "\n" == Join(files + [""], "\n")
  {
    if |files| > 1 {
      JoinNewlineTerminated(files[1..]);
      assert (files + [""])[1..] == files[1..] + [""];
    }
  }

  /** Parsing the lines git prints for a list of file names gives back that list. */
  lemma ParseRoundTrip(files: seq<string>)
    requires forall i :: 0 <= i < |files| ==> IsFileName(files[i])
    ensures ParseFileList(Join(files, "\n")) == files
  {
    TrimmedNonEmptyOfNames(files);
    if |files| == 0 {
      assert Split("", '\n') == [""];
      TrimmedNonEmptyDropsBlank([]);
    } else {
      SplitJoin(files, '\n');
    }
  }

  /** An empty output and a lone newline list no files. */
  lemma ParseBlankOutput()
    ensures ParseFileList("") == []
    ensures ParseFileList("\n") == []
  {
    assert "\n"[1..] == "";
    assert Split("", '\n') == [""];
    assert Split("\n", '\n') == ["", ""];
    TrimmedNonEmptyDropsBlank([]);
    TrimmedNonEmptyDropsBlank([""]);
    assert [""] + [""] == ["", ""];
  }

  /** The lines of a newline-terminated listing: the names, then one empty line. */
  lemma SplitTerminated(files: seq<string>)
    requires |files| >= 1
    requires forall i :: 0 <= i < |files| ==> IsFileName(files[i])
    ensures Split(Join(files, "\n") + "\n", '\n') == files + [""]
  {
    JoinNewlineTerminated(files);
    var lines := files + [""];
    assert forall i :: 0 <= i < |lines| ==> '\n' !in lines[i];
    SplitJoin(lines, '\n');
  }

  /** The same holds when the output ends with a newline, as git's does. */
  lemma ParseRoundTripTerminated(files: seq<string>)
    requires forall i :: 0 <= i < |files| ==> IsFileName(files[i])
    ensures ParseFileList(Join(files, "\n") + "\n") == files
  {
    if |files| == 0 {
      assert Join(files, "\n") + "\n" == "\n";
      ParseBlankOutput();
    } else {
      SplitTerminated(files);
      TrimmedNonEmptyDropsBlank(files);
      TrimmedNonEmptyOfNames(files);
    }
  }

  // ---------------------------------------------------------------------------
  // The two queries

  /** `getUntrackedFiles(options)` given the command runner `exec(command, silent)`. */
  function GetUntrackedFiles<E>(options: DiffOptions, exec: (string, bool) -> Result<ExecOutput, E>): (r: Result<seq<string>, E>)
    ensures var out := exec(UntrackedCommand(options), options.silent.GetOr(false));
      && (out.Err? ==> r == Err(out.error))
      && (out.Ok? ==> r == Ok(ParseFileList(out.value.stdout)))
  {
    match exec(UntrackedCommand(options), options.silent.GetOr(false))
    case Err(e) => Err(e)
    case Ok(out) => Ok(ParseFileList(out.stdout))
  }

  /** `getDiffFrom(base, options)` given the command runner `exec(command, silent)`. */
  function GetDiffFrom<E>(base: string, options: DiffOptions, exec: (string, bool) -> Result<ExecOutput, E>): (r: Result<seq<string>, E>)
    ensures var out := exec(DiffCommand(base, options), options.silent.GetOr(false));
      && (out.Err? ==> r == Err(out.error))
      && (out.Ok? ==> r == Ok(ParseFileList(out.value.stdout)))
  {
    match exec(DiffCommand(base, options), options.silent.GetOr(false))
    case Err(e) => Err(e)
    case Ok(out) => Ok(ParseFileList(out.stdout))
  }

  /** Every listed file is a well-formed name: non-empty and trimmed. */
  lemma DiffNamesTrimmed<E>(base: string, options: DiffOptions, exec: (string, bool) -> Result<ExecOutput, E>)
    requires GetDiffFrom(base, options, exec).Ok?
    ensures forall f :: f in GetDiffFrom(base, options, exec).value ==> f != "" && IsTrimmed(f)
  {
  }
}
