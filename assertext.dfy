/**
 * `assertExt`: every file under each configured directory must end with one
 * of that directory's expected extensions. The offending files are listed,
 * followed by one summary line grouping the directories by extension, and
 * the process exits with code 1.
 */
module AssertExt {

  import opened Wrappers
  import opened Strings
  import opened Seqs

  /** `extension`: one extension, or a list of them. */
  datatype ExtensionSpec = OneExtension(ext: string) | Extensions(exts: seq<string>)

  /** One entry of `config.directories`. */
  datatype DirectoryConfig = DirectoryConfig(path: string, extension: ExtensionSpec, ignorePatterns: Option<seq<string>>)

  const DefaultIgnorePatterns: seq<string> := ["tsconfig.json", "globals.d.*"]

  /** `isString(extension) ? [extension] : extension` */
  function ExpectedExtensions(extension: ExtensionSpec): seq<string> {
    match extension
    case OneExtension(ext) => [ext]
    case Extensions(exts) => exts
  }

  /** `expectedExtensions.some((ext) => file.endsWith(ext))` */
  predicate HasExpectedExtension(file: string, expected: seq<string>) {
    exists i :: 0 <= i < |expected| && EndsWith(file, expected[i])
  }

  /** With a single string extension, a file is accepted exactly when it ends with it. */
  lemma SingleExtension(file: string, ext: string)
    ensures HasExpectedExtension(file, ExpectedExtensions(OneExtension(ext))) <==> EndsWith(file, ext)
  {
    assert ExpectedExtensions(OneExtension(ext))[0] == ext;
  }

  /** `path.isAbsolute(pattern)` for POSIX paths. */
  predicate IsAbsolute(pattern: string) {
    |pattern| > 0 && pattern[0] == '/'
  }

  /**
   * The ignore patterns handed to the glob: the given ones or the defaults,
   * each relative one prefixed with `<dir>/`.
   */
  function AbsoluteIgnorePatterns(dir: string, ignorePatterns: Option<seq<string>>): (r: seq<string>)
    ensures var given := ignorePatterns.GetOr(DefaultIgnorePatterns);
      && |r| == |given|
      && forall i :: 0 <= i < |given| ==> r[i] == (if IsAbsolute(given[i]) then given[i] else dir + "/" + given[i])
  {
    var given := ignorePatterns.GetOr(DefaultIgnorePatterns);
    seq(|given|, i requires 0 <= i < |given| => if IsAbsolute(given[i]) then given[i] else dir + "/" + given[i])
  }

  /** Below an absolute directory, every ignore pattern is absolute. */
  lemma IgnorePatternsAbsolute(dir: string, ignorePatterns: Option<seq<string>>)
    requires IsAbsolute(dir)
    ensures forall i :: 0 <= i < |AbsoluteIgnorePatterns(dir, ignorePatterns)| ==> IsAbsolute(AbsoluteIgnorePatterns(dir, ignorePatterns)[i])
  {
  }

  /** Without ignore patterns, the directory's `tsconfig.json` and `globals.d.*` are ignored. */
  lemma DefaultIgnores(dir: string)
    ensures AbsoluteIgnorePatterns(dir, None) == [dir + "/" + "tsconfig.json", dir + "/" + "globals.d.*"]
  {
    var r := AbsoluteIgnorePatterns(dir, None);
    assert !IsAbsolute(DefaultIgnorePatterns[0]) by {
      assert DefaultIgnorePatterns[0][0] == 't';
    }
    assert !IsAbsolute(DefaultIgnorePatterns[1]) by {
      assert DefaultIgnorePatterns[1][0] == 'g';
    }
    assert r[0] == dir + "/" + DefaultIgnorePatterns[0];
    assert r[1] == dir + "/" + DefaultIgnorePatterns[1];
  }

  /** `files.filter((file) => !expectedExtensions.some(...))` */
  function IncorrectFiles(files: seq<string>, expected: seq<string>): (r: seq<string>)
    ensures forall k :: 0 <= k < |r| ==> !HasExpectedExtension(r[k], expected)
  {
    if files == [] then []
    else
      var rest := IncorrectFiles(files[..|files| - 1], expected);
      var f := files[|files| - 1];
      if HasExpectedExtension(f, expected) then rest else rest + [f]
  }

  /** The incorrect files are exactly the listed files with none of the extensions, in listing order. */
  lemma IncorrectFilesExact(files: seq<string>, expected: seq<string>)
    ensures forall f :: f in IncorrectFiles(files, expected) <==> f in files && !HasExpectedExtension(f, expected)
    ensures forall f :: multiset(IncorrectFiles(files, expected))[f] ==
                        if HasExpectedExtension(f, expected) then 0 else multiset(files)[f]
    ensures IsSubsequence(IncorrectFiles(files, expected), files)
  {
    IncorrectFilesCount(files, expected);
    forall f ensures f in IncorrectFiles(files, expected) <==> f in files && !HasExpectedExtension(f, expected) {
      assert f in IncorrectFiles(files, expected) <==> multiset(IncorrectFiles(files, expected))[f] > 0;
      assert f in files <==> multiset(files)[f] > 0;
    }
  }

  /** Each incorrect file is kept as often as it is listed, in listing order. */
  lemma IncorrectFilesCount(files: seq<string>, expected: seq<string>)
    ensures forall f :: multiset(IncorrectFiles(files, expected))[f] ==
                        if HasExpectedExtension(f, expected) then 0 else multiset(files)[f]
    ensures IsSubsequence(IncorrectFiles(files, expected), files)
  {
    IncorrectFilesMultiset(files, expected);
    IncorrectFilesOrder(files, expected);
  }

  /** Each file passes the filter as often as it is listed, or not at all. */
  lemma {:induction false} IncorrectFilesMultiset(files: seq<string>, expected: seq<string>)
    ensures forall f :: multiset(IncorrectFiles(files, expected))[f] ==
                        if HasExpectedExtension(f, expected) then 0 else multiset(files)[f]
  {
    if files != [] {
      var init := files[..|files| - 1];
      var last := files[|files| - 1];
      IncorrectFilesMultiset(init, expected);
      var kept := IncorrectFiles(init, expected);
      assert files == init + [last];
      assert multiset(files) == multiset(init) + multiset{last};
      if HasExpectedExtension(last, expected) {
        assert IncorrectFiles(files, expected) == kept;
      } else {
        assert IncorrectFiles(files, expected) == kept + [last];
        assert multiset(kept + [last]) == multiset(kept) + multiset{last};
      }
    }
  }

  /** The filter keeps the listing order. */
  lemma {:induction false} IncorrectFilesOrder(files: seq<string>, expected: seq<string>)
    ensures IsSubsequence(IncorrectFiles(files, expected), files)
  {
    if files != [] {
      var init := files[..|files| - 1];
      var f := files[|files| - 1];
      IncorrectFilesOrder(init, expected);
      assert files == init + [f];
      if HasExpectedExtension(f, expected) {
        SubsequenceSkip(IncorrectFiles(init, expected), init, f);
      } else {
        SubsequenceKeep(IncorrectFiles(init, expected), init, f);
      }
    }
  }

  /** What `getFilesWithIncorrectExtension` does for one directory. */
  datatype DirectoryCheck =
    | DirectoryMissing                   // `assertPathExists` ends the process
    | CheckThrew(error: string)          // the glob threw
    | Checked(incorrect: seq<string>)

  /**
   * `getFilesWithIncorrectExtension(dir, expectedExtensions, ignorePatterns)`,
   * with `pathExists` standing for `fs.access` succeeding and `glob(pattern, ignore)` for
   * fast-glob.
   */
  function GetFilesWithIncorrectExtension(dir: string, expected: seq<string>, ignorePatterns: Option<seq<string>>,
                                          pathExists: string -> bool,
                                          glob: (string, seq<string>) -> Result<seq<string>, string>): (r: DirectoryCheck)
    ensures !pathExists(dir) <==> r.DirectoryMissing?
    ensures pathExists(dir) && glob(dir + "/**/*", AbsoluteIgnorePatterns(dir, ignorePatterns)).Err? <==> r.CheckThrew?
    ensures r.Checked? ==> r.incorrect == IncorrectFiles(glob(dir + "/**/*", AbsoluteIgnorePatterns(dir, ignorePatterns)).value, expected)
  {
    if !pathExists(dir) then DirectoryMissing
    else match glob(dir + "/**/*", AbsoluteIgnorePatterns(dir, ignorePatterns))
      case Err(e) => CheckThrew(e)
      case Ok(files) => Checked(IncorrectFiles(files, expected))
  }

  /** The result the `try`/`catch` around one directory gives: a throw counts as no incorrect files. */
  function IncorrectOf(check: DirectoryCheck): seq<string> {
    if check.Checked? then check.incorrect else []
  }

  /** `results.flat()` */
  function Flatten(lists: seq<seq<string>>): (r: seq<string>)
    ensures |r| == 0 <==> forall i :: 0 <= i < |lists| ==> lists[i] == []
  {
    if lists == [] then [] else lists[0] + Flatten(lists[1..])
  }

  /** A file is in the flattened list exactly when it is in one of the lists. */
  lemma {:induction false} FlattenMembers(lists: seq<seq<string>>, f: string)
    ensures f in Flatten(lists) <==> exists i :: 0 <= i < |lists| && f in lists[i]
  {
    if lists != [] {
      FlattenMembers(lists[1..], f);
      if f in Flatten(lists[1..]) {
        var i :| 0 <= i < |lists[1..]| && f in lists[1..][i];
        assert f in lists[i + 1];
      }
      if i :| 0 <= i < |lists| && f in lists[i] {
        if i > 0 {
          assert f in lists[1..][i - 1];
        }
      }
    }
  }

  // ---------------------------------------------------------------------------
  // The error message

  const Header: string := "Files with incorrect extensions found:"
  const SuccessMessage: string := "✓ All files have correct extensions"

  /** The key a directory is grouped by: its extension, or its extensions joined by " or ". */
  function ExtKey(extension: ExtensionSpec): string {
    match extension
    case OneExtension(ext) => ext
    case Extensions(exts) => Join(exts, " or ")
  }

  /** The distinct keys in order of first occurrence, as the groups of `Arr.groupBy` are. */
  function GroupKeys(keys: seq<string>): (r: seq<string>)
    ensures NoDup(r)
    ensures forall k :: k in r <==> k in keys
  {
    if keys == [] then []
    else
      var rest := GroupKeys(keys[..|keys| - 1]);
      var k := keys[|keys| - 1];
      assert keys == keys[..|keys| - 1] + [k];
      if k in rest then rest else rest + [k]
  }

  /** The index of the first occurrence of `k` in `s`. */
  function FirstIndex(s: seq<string>, k: string): (i: nat)
    requires k in s
    ensures i < |s| && s[i] == k && k !in s[..i]
  {
    if s[0] == k then 0
    else
      var j := FirstIndex(s[1..], k);
      assert s[..j + 1] == [s[0]] + s[1..][..j];
      j + 1
  }

  /** A first occurrence in a prefix is the first occurrence in the whole sequence. */
  lemma FirstIndexPrefix(s: seq<string>, n: nat, k: string)
    requires n <= |s| && k in s[..n]
    ensures FirstIndex(s, k) == FirstIndex(s[..n], k)
  {
    var i, j := FirstIndex(s, k), FirstIndex(s[..n], k);
  }

  /**
   * The keys of `GroupKeys` come in the order in which the keys first occur,
   * which is the order of the entries of `Arr.groupBy`'s `Map`.
   */
  lemma {:induction false} GroupKeysOrder(keys: seq<string>)
    ensures forall a, b :: 0 <= a < b < |GroupKeys(keys)| ==>
      FirstIndex(keys, GroupKeys(keys)[a]) < FirstIndex(keys, GroupKeys(keys)[b])
  {
    if keys != [] {
      var n := |keys| - 1;
      var init := keys[..n];
      var rest := GroupKeys(init);
      GroupKeysOrder(init);
      forall a | 0 <= a < |rest| ensures rest[a] in keys && FirstIndex(keys, rest[a]) == FirstIndex(init, rest[a]) < n {
        var i := FirstIndex(init, rest[a]);
        assert keys[i] == rest[a];
        FirstIndexPrefix(keys, n, rest[a]);
      }
      if keys[n] !in rest {
        assert keys[n] !in init;
        assert FirstIndex(keys, keys[n]) == n;
      }
    }
  }

  /** The values whose key is `key`, in order. */
  function GroupOf(keys: seq<string>, values: seq<string>, key: string): (r: seq<string>)
    requires |keys| == |values|
  {
    if keys == [] then []
    else
      var n := |keys| - 1;
      var rest := GroupOf(keys[..n], values[..n], key);
      if keys[n] == key then rest + [values[n]] else rest
  }

  /** A group holds exactly the values whose key is the group's key. */
  lemma {:induction false} GroupOfMembers(keys: seq<string>, values: seq<string>, key: string, v: string)
    requires |keys| == |values|
    ensures v in GroupOf(keys, values, key) <==> exists i :: 0 <= i < |keys| && keys[i] == key && values[i] == v
  {
    if keys != [] {
      var n := |keys| - 1;
      GroupOfMembers(keys[..n], values[..n], key, v);
      if i :| 0 <= i < |keys| && keys[i] == key && values[i] == v {
        if i < n {
          assert keys[..n][i] == key && values[..n][i] == v;
        }
      }
      if v in GroupOf(keys[..n], values[..n], key) {
        var i :| 0 <= i < n && keys[..n][i] == key && values[..n][i] == v;
        assert keys[i] == key && values[i] == v;
      }
    }
  }

  /** The group sizes add up to the number of values. */
  lemma {:induction false} GroupSizes(keys: seq<string>, values: seq<string>)
    requires |keys| == |values|
    ensures SumSizes(GroupKeys(keys), keys, values) == |values|
  {
    if keys != [] {
      var n := |keys| - 1;
      var ks := GroupKeys(keys[..n]);
      GroupSizes(keys[..n], values[..n]);
      SumSizesStep(ks, keys, values);
      if keys[n] !in ks {
        SumSizesSnoc(ks, keys[n], keys, values);
        GroupOfAbsent(keys[..n], values[..n], keys[n]);
      }
    }
  }

  /** The total size of the groups of the given keys. */
  function SumSizes(groupKeys: seq<string>, keys: seq<string>, values: seq<string>): nat
    requires |keys| == |values|
  {
    if groupKeys == [] then 0
    else SumSizes(groupKeys[..|groupKeys| - 1], keys, values) + |GroupOf(keys, values, groupKeys[|groupKeys| - 1])|
  }

  lemma SumSizesSnoc(groupKeys: seq<string>, k: string, keys: seq<string>, values: seq<string>)
    requires |keys| == |values|
    ensures SumSizes(groupKeys + [k], keys, values) == SumSizes(groupKeys, keys, values) + |GroupOf(keys, values, k)|
  {
    assert (groupKeys + [k])[..|groupKeys|] == groupKeys;
  }

  /** A key that does not occur has an empty group. */
  lemma {:induction false} GroupOfAbsent(keys: seq<string>, values: seq<string>, key: string)
    requires |keys| == |values| && key !in keys
    ensures GroupOf(keys, values, key) == []
  {
    if keys != [] {
      var n := |keys| - 1;
      assert keys[..n] == keys[..n];
      GroupOfAbsent(keys[..n], values[..n], key);
    }
  }

  /**
   * Adding one value to the input adds exactly one to the group of its key
   * and leaves the other groups' sizes unchanged.
   */
  lemma {:induction false} SumSizesStep(groupKeys: seq<string>, keys: seq<string>, values: seq<string>)
    requires |keys| == |values| && |keys| >= 1
    requires NoDup(groupKeys)
    ensures var n := |keys| - 1;
      SumSizes(groupKeys, keys, values)
        == SumSizes(groupKeys, keys[..n], values[..n]) + (if keys[n] in groupKeys then 1 else 0)
  {
    var n := |keys| - 1;
    if groupKeys != [] {
      var m := |groupKeys| - 1;
      var init := groupKeys[..m];
      assert groupKeys == init + [groupKeys[m]];
      assert NoDup(init) by {
        forall a, b | 0 <= a < b < |init| ensures init[a] != init[b] {
          assert init[a] == groupKeys[a] && init[b] == groupKeys[b];
        }
      }
      SumSizesStep(init, keys, values);
      assert keys[n] in groupKeys <==> keys[n] in init || keys[n] == groupKeys[m];
      if keys[n] == groupKeys[m] {
        assert keys[n] !in init by {
          forall a | 0 <= a < |init| ensures init[a] != keys[n] {
            assert init[a] == groupKeys[a];
          }
        }
      }
    }
  }

  /** `${dirList} should have ${ext} extension` */
  function MessagePart(key: string, dirs: seq<string>): (r: string)
    ensures StartsWith(r, Join(dirs, ", "))
    ensures EndsWith(r, " should have " + key + " extension")
    ensures |r| == |Join(dirs, ", ")| + |" should have " + key + " extension"|
  {
    var list := Join(dirs, ", ");
    var tail := " should have " + key + " extension";
    assert list + " should have " + key + " extension" == list + tail;
    list + tail
  }

  /** The relative paths and the keys of the configured directories. */
  function RelativePaths(directories: seq<DirectoryConfig>, relative: string -> string): (r: seq<string>)
    ensures |r| == |directories|
  {
    seq(|directories|, i requires 0 <= i < |directories| => relative(directories[i].path))
  }

  function Keys(directories: seq<DirectoryConfig>): (r: seq<string>)
    ensures |r| == |directories|
  {
    seq(|directories|, i requires 0 <= i < |directories| => ExtKey(directories[i].extension))
  }

  /** One message part per distinct key, in order of first occurrence. */
  function MessageParts(directories: seq<DirectoryConfig>, relative: string -> string): (r: seq<string>)
    ensures |r| == |GroupKeys(Keys(directories))|
    ensures forall g :: 0 <= g < |r| ==>
      && StartsWith(r[g], Join(GroupOf(Keys(directories), RelativePaths(directories, relative), GroupKeys(Keys(directories))[g]), ", "))
      && EndsWith(r[g], " should have " + GroupKeys(Keys(directories))[g] + " extension")
      && |r[g]| == |Join(GroupOf(Keys(directories), RelativePaths(directories, relative), GroupKeys(Keys(directories))[g]), ", ")|
                   + |" should have " + GroupKeys(Keys(directories))[g] + " extension"|
  {
    var keys := Keys(directories);
    var groups := GroupKeys(keys);
    seq(|groups|, g requires 0 <= g < |groups| => MessagePart(groups[g], GroupOf(keys, RelativePaths(directories, relative), groups[g])))
  }

  /** `All files in ${messageParts.join(' and ')}.` */
  function Summary(directories: seq<DirectoryConfig>, relative: string -> string): string {
    "All files in " + Join(MessageParts(directories, relative), " and ") + "."
  }

  /** One `  - <file>` line per incorrect file. */
  function FileLines(files: seq<string>): (r: seq<string>)
    ensures |r| == |files| && forall k :: 0 <= k < |files| ==> r[k] == "  - " + files[k]
  {
    seq(|files|, k requires 0 <= k < |files| => "  - " + files[k])
  }

  /** The lines of the error message: the header, the files, an empty line, and the summary. */
  function MessageLines(files: seq<string>, summary: string): seq<string> {
    [Header] + FileLines(files) + ["", summary]
  }

  function ErrorMessage(files: seq<string>, directories: seq<DirectoryConfig>, relative: string -> string): string {
    Join(MessageLines(files, Summary(directories, relative)), "\n")
  }

  /**
   * When no file name and not the summary holds a line break, the error
   * message splits back into its lines: the header, one line per file in
   * order, an empty line and the summary.
   */
  lemma ErrorMessageLines(files: seq<string>, summary: string)
    requires forall k :: 0 <= k < |files| ==> '\n' !in files[k]
    requires '\n' !in summary
    ensures Split(Join(MessageLines(files, summary), "\n"), '\n') == MessageLines(files, summary)
    ensures |MessageLines(files, summary)| == |files| + 3
  {
    var lines := MessageLines(files, summary);
    assert '\n' !in Header;
    assert '\n' !in "  - ";
    forall k | 0 <= k < |lines| ensures '\n' !in lines[k] {
      if 1 <= k <= |files| {
        NotInConcat("  - ", files[k - 1], '\n');
      }
    }
    SplitJoin(lines, '\n');
  }

  // ---------------------------------------------------------------------------
  // assertExt

  datatype AssertExtOutcome =
    | Passed(message: string)               // `echo('✓ All files have correct extensions')`
    | Exited(code: int, message: string)    // the message echoed before `process.exit(code)`

  /** The check of every configured directory. */
  function Checks(directories: seq<DirectoryConfig>, pathExists: string -> bool,
                  glob: (string, seq<string>) -> Result<seq<string>, string>): (r: seq<DirectoryCheck>)
    ensures |r| == |directories|
  {
    seq(|directories|, i requires 0 <= i < |directories| =>
      GetFilesWithIncorrectExtension(directories[i].path, ExpectedExtensions(directories[i].extension),
                                     directories[i].ignorePatterns, pathExists, glob))
  }

  /** The first directory that does not exist, if any. */
  function FirstMissing(checks: seq<DirectoryCheck>): (r: Option<nat>)
    ensures r.None? <==> forall i :: 0 <= i < |checks| ==> !checks[i].DirectoryMissing?
    ensures r.Some? ==> r.value < |checks| && checks[r.value].DirectoryMissing?
    ensures r.Some? ==> forall j :: 0 <= j < r.value ==> !checks[j].DirectoryMissing?
  {
    if checks == [] then None
    else if checks[0].DirectoryMissing? then Some(0)
    else match FirstMissing(checks[1..])
      case None => None
      case Some(i) => Some(i + 1)
  }

  /** `allIncorrectFiles` */
  function AllIncorrectFiles(checks: seq<DirectoryCheck>): seq<string> {
    Flatten(seq(|checks|, i requires 0 <= i < |checks| => IncorrectOf(checks[i])))
  }

  /**
   * `assertExt(config)`, with the directories checked one after the other;
   * `relative` stands for `path.relative(process.cwd(), ·)`.
   */
  function AssertExtension(directories: seq<DirectoryConfig>, pathExists: string -> bool,
                           glob: (string, seq<string>) -> Result<seq<string>, string>,
                           relative: string -> string): (r: AssertExtOutcome)
    ensures r.Exited? ==> r.code == 1
  {
    var checks := Checks(directories, pathExists, glob);
    match FirstMissing(checks)
    case Some(i) => Exited(1, "Directory does not exist: " + directories[i].path)
    case None =>
      var all := AllIncorrectFiles(checks);
      if |all| > 0 then Exited(1, ErrorMessage(all, directories, relative))
      else Passed(SuccessMessage)
  }

  /**
   * The check passes exactly when every directory exists and none lists a
   * file with a wrong extension; a directory whose glob throws counts as
   * having none. When it fails on files, the message starts with the header
   * and names every incorrect file.
   */
  lemma AssertExtensionOutcome(directories: seq<DirectoryConfig>, pathExists: string -> bool,
                               glob: (string, seq<string>) -> Result<seq<string>, string>,
                               relative: string -> string)
    ensures var checks := Checks(directories, pathExists, glob);
      AssertExtension(directories, pathExists, glob, relative).Passed? <==>
        forall i :: 0 <= i < |checks| ==> checks[i].CheckThrew? || checks[i] == Checked([])
    ensures var checks := Checks(directories, pathExists, glob);
      var r := AssertExtension(directories, pathExists, glob, relative);
      (forall i :: 0 <= i < |checks| ==> !checks[i].DirectoryMissing?) && r.Exited? ==>
        r.message == ErrorMessage(AllIncorrectFiles(checks), directories, relative)
        && StartsWith(r.message, Header)
  {
    var checks := Checks(directories, pathExists, glob);
    var lists := seq(|checks|, i requires 0 <= i < |checks| => IncorrectOf(checks[i]));
    assert forall i :: 0 <= i < |checks| ==> lists[i] == IncorrectOf(checks[i]);
    var r := AssertExtension(directories, pathExists, glob, relative);
    if FirstMissing(checks).None? && r.Exited? {
      var lines := MessageLines(AllIncorrectFiles(checks), Summary(directories, relative));
      JoinStartsWith(lines, "\n");
    }
  }

  /**
   * A missing directory ends the check before any file is looked at: the
   * first directory, in configuration order, that does not exist is named in
   * `Directory does not exist: <path>` and the exit code is 1.
   */
  lemma MissingDirectoryOutcome(directories: seq<DirectoryConfig>, pathExists: string -> bool,
                                glob: (string, seq<string>) -> Result<seq<string>, string>,
                                relative: string -> string, i: nat)
    requires i < |directories| && !pathExists(directories[i].path)
    requires forall j :: 0 <= j < i ==> pathExists(directories[j].path)
    ensures AssertExtension(directories, pathExists, glob, relative)
         == Exited(1, "Directory does not exist: " + directories[i].path)
  {
    var checks := Checks(directories, pathExists, glob);
    assert checks[i].DirectoryMissing?;
    assert forall j :: 0 <= j < i ==> !checks[j].DirectoryMissing?;
    assert FirstMissing(checks) == Some(i);
  }
}
