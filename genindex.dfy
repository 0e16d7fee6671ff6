/**
 * `genIndex`: writes a barrel file `index<ext>` into every directory of a
 * source tree, re-exporting its sub-directories and its source files, and
 * recursing into the sub-directories first.
 */
module GenIndex {

  import opened Wrappers
  import opened Strings
  import opened Seqs

  // ---------------------------------------------------------------------------
  // Configuration (`defaultConfig` and `fillConfig`)

  const DefaultExclude: seq<string> := ["**/*.{test,spec}.?(c|m)[jt]s?(x)", "**/*.d.?(c|m)ts"]
  const DefaultTargetExtensions: seq<string> := [".ts", ".tsx"]
  const DefaultIndexFileExtension: string := ".ts"
  const DefaultExportStatementExtension: string := ".js"
  const DefaultSilent: bool := false

  /** What the exclude test is given about one directory entry. */
  datatype EntryInfo = EntryInfo(absolutePath: string, relativePath: string, fileName: string)

  /** `config.exclude` as the caller wrote it. */
  datatype ExcludeSetting =
    | ExcludeUnset
    | ExcludeFunction(test: EntryInfo -> bool)
    | ExcludePatterns(patterns: seq<string>)

  /** The filled exclude test: the caller's function, or glob patterns. */
  datatype Exclude =
    | ExcludeBy(test: EntryInfo -> bool)
    | ExcludeMatching(patterns: set<string>)

  /** `config.targetDirectory`: one path or several. */
  datatype TargetDirectory = OneDirectory(path: string) | Directories(paths: seq<string>)

  datatype GenIndexConfig = GenIndexConfig(
    targetDirectory: TargetDirectory,
    exclude: ExcludeSetting,
    targetExtensions: Option<seq<string>>,
    indexFileExtension: Option<string>,
    exportStatementExtension: Option<string>,
    silent: Option<bool>,
    formatCommand: Option<string>)

  datatype FilledConfig = FilledConfig(
    formatCommand: Option<string>,
    targetDirectory: set<string>,
    exclude: Exclude,
    targetExtensions: set<string>,
    indexFileExtension: string,
    exportStatementExtension: string,
    silent: bool)

  /** `micromatch.isMatch(relativePath, pattern) || micromatch.isMatch(fileName, pattern)` */
  predicate MatchesPattern(glob: (string, string) -> bool, info: EntryInfo, pattern: string) {
    glob(info.relativePath, pattern) || glob(info.fileName, pattern)
  }

  /** The filled exclude test applied to one entry; `glob` stands for `micromatch.isMatch`. */
  predicate Excluded(ex: Exclude, glob: (string, string) -> bool, info: EntryInfo) {
    match ex
    case ExcludeBy(test) => test(info)
    case ExcludeMatching(patterns) => exists p :: p in patterns && MatchesPattern(glob, info, p)
  }

  /** The patterns of a non-function `exclude`: the caller's, then the defaults, as a set. */
  function ExcludePatternSet(setting: ExcludeSetting): (r: set<string>)
    requires !setting.ExcludeFunction?
    ensures Elems(DefaultExclude) <= r
    ensures setting.ExcludePatterns? ==> Elems(setting.patterns) <= r
    ensures forall p :: p in r ==> p in DefaultExclude || (setting.ExcludePatterns? && p in setting.patterns)
  {
    match setting
    case ExcludeUnset => Elems(DefaultExclude)
    case ExcludePatterns(ps) => Elems(ps) + Elems(DefaultExclude)
  }

  function FillConfig(config: GenIndexConfig): (r: FilledConfig)
    ensures config.exclude.ExcludeFunction? <==> r.exclude.ExcludeBy?
    ensures r.exclude.ExcludeMatching? ==> Elems(DefaultExclude) <= r.exclude.patterns
  {
    FilledConfig(
      config.formatCommand,
      match config.targetDirectory
        case OneDirectory(d) => {d}
        case Directories(ds) => Elems(ds),
      match config.exclude
        case ExcludeFunction(test) => ExcludeBy(test)
        case _ => ExcludeMatching(ExcludePatternSet(config.exclude)),
      Elems(config.targetExtensions.GetOr(DefaultTargetExtensions)),
      config.indexFileExtension.GetOr(DefaultIndexFileExtension),
      config.exportStatementExtension.GetOr(DefaultExportStatementExtension),
      config.silent.GetOr(DefaultSilent))
  }

  /** Options left out take the documented defaults; given ones are kept. */
  lemma FillConfigDefaults(config: GenIndexConfig)
    ensures config.targetExtensions.None? ==> FillConfig(config).targetExtensions == {".ts", ".tsx"}
    ensures config.targetExtensions.Some? ==> FillConfig(config).targetExtensions == Elems(config.targetExtensions.value)
    ensures config.indexFileExtension.None? ==> FillConfig(config).indexFileExtension == ".ts"
    ensures config.indexFileExtension.Some? ==> FillConfig(config).indexFileExtension == config.indexFileExtension.value
    ensures config.exportStatementExtension.None? ==> FillConfig(config).exportStatementExtension == ".js"
    ensures config.exportStatementExtension.Some? ==>
      FillConfig(config).exportStatementExtension == config.exportStatementExtension.value
    ensures config.silent.None? ==> !FillConfig(config).silent
    ensures config.silent.Some? ==> FillConfig(config).silent == config.silent.value
    ensures FillConfig(config).formatCommand == config.formatCommand
    ensures config.targetDirectory.OneDirectory? ==> FillConfig(config).targetDirectory == {config.targetDirectory.path}
    ensures config.targetDirectory.Directories? ==> FillConfig(config).targetDirectory == Elems(config.targetDirectory.paths)
  {
    if config.targetExtensions.None? {
      assert Elems(DefaultTargetExtensions) == {".ts", ".tsx"} by {
        assert DefaultTargetExtensions[0] == ".ts" && DefaultTargetExtensions[1] == ".tsx";
      }
    }
  }

  /**
   * A function `exclude` is used unchanged; otherwise an entry is excluded
   * exactly when one of the caller's patterns or one of the default
   * patterns matches its relative path or its file name.
   */
  lemma FillConfigExclude(config: GenIndexConfig, glob: (string, string) -> bool, info: EntryInfo)
    ensures config.exclude.ExcludeFunction? ==>
      (Excluded(FillConfig(config).exclude, glob, info) <==> config.exclude.test(info))
    ensures config.exclude.ExcludePatterns? ==>
      (Excluded(FillConfig(config).exclude, glob, info) <==>
         (exists p :: p in config.exclude.patterns && MatchesPattern(glob, info, p))
         || (exists p :: p in DefaultExclude && MatchesPattern(glob, info, p)))
    ensures config.exclude.ExcludeUnset? ==>
      (Excluded(FillConfig(config).exclude, glob, info) <==>
         exists p :: p in DefaultExclude && MatchesPattern(glob, info, p))
  {
    if !config.exclude.ExcludeFunction? {
      var ps := ExcludePatternSet(config.exclude);
      assert FillConfig(config).exclude == ExcludeMatching(ps);
      if p :| p in DefaultExclude && MatchesPattern(glob, info, p) {
        assert p in ps;
      }
      if config.exclude.ExcludePatterns? {
        if p :| p in config.exclude.patterns && MatchesPattern(glob, info, p) {
          assert p in ps;
        }
      }
    }
  }

  // ---------------------------------------------------------------------------
  // shouldExportFile

  /** The regular expression `^index\.[cm]?[jt]s[x]?$`. */
  predicate IsIndexFileName(name: string) {
    StartsWith(name, "index.") && IsIndexExtension(name[6..])
  }

  /** `[cm]?[jt]s[x]?` matched against the whole string. */
  predicate IsIndexExtension(t: string) {
    var u := if |t| > 0 && (t[0] == 'c' || t[0] == 'm') then t[1..] else t;
    |u| >= 2 && (u[0] == 'j' || u[0] == 't') && u[1] == 's' && (|u| == 2 || (|u| == 3 && u[2] == 'x'))
  }

  /** The twelve extensions the index pattern accepts after `index.`. */
  const IndexExtensions: set<string> :=
    {"js", "ts", "jsx", "tsx", "cjs", "cts", "cjsx", "ctsx", "mjs", "mts", "mjsx", "mtsx"}

  /** The pattern accepts exactly the twelve listed extensions. */
  lemma IndexExtensionsEnumerated(t: string)
    ensures IsIndexExtension(t) <==> t in IndexExtensions
  {
    if IsIndexExtension(t) {
      IndexExtensionChars(t);
    } else {
      assert t !in IndexExtensions by {
        forall e | e in IndexExtensions ensures IsIndexExtension(e) { }
      }
    }
  }

  /** Every string the pattern accepts is spelled out by its characters. */
  lemma IndexExtensionChars(t: string)
    requires IsIndexExtension(t)
    ensures t in IndexExtensions
  {
    if t[0] == 'c' || t[0] == 'm' {
      if |t| == 3 {
        assert t == [t[0], t[1], 's'];
      } else {
        assert t == [t[0], t[1], 's', 'x'];
      }
    } else if |t| == 2 {
      assert t == [t[0], 's'];
    } else {
      assert t == [t[0], 's', 'x'];
    }
  }

  /** The file names the pattern is documented to match, and one it does not. */
  lemma IndexFileNameExamples()
    ensures IsIndexFileName("index.ts") && IsIndexFileName("index.mts") && IsIndexFileName("index.jsx")
    ensures !IsIndexFileName("index.d.ts")
  {
    IndexFileNameParts("ts");
    IndexFileNameParts("mts");
    IndexFileNameParts("jsx");
    IndexFileNameParts("d.ts");
    assert "index." + "d.ts" == "index.d.ts";
    assert !IsIndexExtension("d.ts") by {
      assert "d.ts"[0] == 'd';
    }
  }

  /** `index.` followed by `t` is an index file name exactly when `t` is an index extension. */
  lemma IndexFileNameParts(t: string)
    ensures IsIndexFileName("index." + t) <==> IsIndexExtension(t)
  {
    assert ("index." + t)[..6] == "index.";
    assert ("index." + t)[6..] == t;
  }

  /**
   * `shouldExportFile({ absolutePath, filePath, config })`: the extension
   * must be targeted, the file must not be an index file, and the exclude
   * test must reject it.
   */
  function ShouldExportFile(absolutePath: string, filePath: string, config: FilledConfig,
                            glob: (string, string) -> bool): (r: bool)
    ensures r <==>
      && Extname(Basename(filePath)) in config.targetExtensions
      && !IsIndexFileName(Basename(filePath))
      && !Excluded(config.exclude, glob, EntryInfo(absolutePath, filePath, Basename(filePath)))
  {
    var fileName := Basename(filePath);
    var ext := Extname(fileName);
    if ext !in config.targetExtensions then false
    else if IsIndexFileName(fileName) then false
    else if Excluded(config.exclude, glob, EntryInfo(absolutePath, filePath, fileName)) then false
    else true
  }

  // ---------------------------------------------------------------------------
  // generateIndexContent

  const ExportPrefix: string := "export * from \"./"
  const ExportSuffix: string := "\";"
  const EmptyModule: string := "export {};"

  /** `export * from "./<target>";` */
  function ExportLine(target: string): string {
    ExportPrefix + target + ExportSuffix
  }

  /** The module a sub-directory line re-exports. */
  function SubDirTarget(subDir: string, exportExtension: string): string {
    if exportExtension == "none" then subDir else subDir + "/index" + exportExtension
  }

  /** The module a file line re-exports: the file name without its extension, then the export extension. */
  function FileTarget(file: string, exportExtension: string): string {
    if exportExtension == "none" then Stem(file) else Stem(file) + exportExtension
  }

  /** The export statements: the sub-directories first, then the files, each in the given order. */
  function ExportStatements(subDirs: seq<string>, files: seq<string>, exportExtension: string): (r: seq<string>)
    ensures |r| == |subDirs| + |files|
    ensures forall i :: 0 <= i < |subDirs| ==> r[i] == ExportLine(SubDirTarget(subDirs[i], exportExtension))
    ensures forall j :: 0 <= j < |files| ==> r[|subDirs| + j] == ExportLine(FileTarget(files[j], exportExtension))
  {
    seq(|subDirs|, i requires 0 <= i < |subDirs| => ExportLine(SubDirTarget(subDirs[i], exportExtension)))
    + seq(|files|, j requires 0 <= j < |files| => ExportLine(FileTarget(files[j], exportExtension)))
  }

  /** `generateIndexContent(subDirectories, filesToExport, config)` */
  function GenerateIndexContent(subDirs: seq<string>, files: seq<string>, exportExtension: string): string {
    var statements := ExportStatements(subDirs, files, exportExtension);
    if |statements| == 0 then EmptyModule else Join(statements, "\n")
  }

  /** An export line starts with the prefix, ends with `";`, and gives back its target. */
  lemma ExportLineTarget(target: string)
    ensures StartsWith(ExportLine(target), ExportPrefix)
    ensures EndsWith(ExportLine(target), ExportSuffix)
    ensures ExportLine(target)[|ExportPrefix|..|ExportLine(target)| - |ExportSuffix|] == target
  {
    var l := ExportLine(target);
    assert l[..|ExportPrefix|] == ExportPrefix;
    assert l[|l| - |ExportSuffix|..] == ExportSuffix;
  }

  /** Different targets give different lines. */
  lemma ExportLineInjective(a: string, b: string)
    requires ExportLine(a) == ExportLine(b)
    ensures a == b
  {
    ExportLineTarget(a);
    ExportLineTarget(b);
  }

  /** The content is `export {};` exactly when there is nothing to export. */
  lemma EmptyContent(subDirs: seq<string>, files: seq<string>, exportExtension: string)
    ensures GenerateIndexContent(subDirs, files, exportExtension) == EmptyModule <==> subDirs == [] && files == []
  {
    var statements := ExportStatements(subDirs, files, exportExtension);
    if |statements| > 0 {
      var content := Join(statements, "\n");
      JoinStartsWith(statements, "\n");
      ExportLineStart(statements[0]);
      assert content[7] == statements[0][7];
      assert EmptyModule[7] == '{';
    }
  }

  /** The eighth character of an export statement is the `*` of `export *`. */
  lemma ExportLineStart(line: string)
    requires StartsWith(line, ExportPrefix)
    ensures |line| > 7 && line[7] == '*'
  {
    assert line[..|ExportPrefix|][7] == ExportPrefix[7];
  }

  /** An export line is one line when its target is. */
  lemma ExportLineSingle(target: string)
    requires '\n' !in target
    ensures '\n' !in ExportLine(target)
  {
    assert '\n' !in ExportPrefix && '\n' !in ExportSuffix;
    NotInConcat(ExportPrefix, target, '\n');
    NotInConcat(ExportPrefix + target, ExportSuffix, '\n');
  }

  /** The targets are single lines when the names and the export extension are. */
  lemma TargetsSingle(name: string, exportExtension: string)
    requires '\n' !in name && '\n' !in exportExtension
    ensures '\n' !in SubDirTarget(name, exportExtension)
    ensures '\n' !in FileTarget(name, exportExtension)
  {
    var stem := Stem(name);
    assert stem == name[..|stem|];
    assert '\n' !in stem;
    NotInConcat(name, "/index", '\n');
    NotInConcat(name + "/index", exportExtension, '\n');
    NotInConcat(stem, exportExtension, '\n');
  }

  /**
   * When neither the names nor the export extension hold a line break,
   * the content splits back into exactly the export statements: one line
   * per sub-directory, then one per file.
   */
  lemma ContentLines(subDirs: seq<string>, files: seq<string>, exportExtension: string)
    requires subDirs != [] || files != []
    requires forall i :: 0 <= i < |subDirs| ==> '\n' !in subDirs[i]
    requires forall j :: 0 <= j < |files| ==> '\n' !in files[j]
    requires '\n' !in exportExtension
    ensures Split(GenerateIndexContent(subDirs, files, exportExtension), '\n') == ExportStatements(subDirs, files, exportExtension)
    ensures |Split(GenerateIndexContent(subDirs, files, exportExtension), '\n')| == |subDirs| + |files|
  {
    var statements := ExportStatements(subDirs, files, exportExtension);
    forall k | 0 <= k < |statements| ensures '\n' !in statements[k] {
      if k < |subDirs| {
        TargetsSingle(subDirs[k], exportExtension);
        ExportLineSingle(SubDirTarget(subDirs[k], exportExtension));
      } else {
        TargetsSingle(files[k - |subDirs|], exportExtension);
        ExportLineSingle(FileTarget(files[k - |subDirs|], exportExtension));
      }
    }
    SplitJoin(statements, '\n');
  }

  // ---------------------------------------------------------------------------
  // generateIndexFileForDir

  /**
   * A directory as `fs.readdir(dirPath, { withFileTypes: true })` lists it,
   * or the text of the error the listing throws.
   */
  datatype Dir = Listing(entries: seq<Entry>) | Unreadable(reason: string)

  /** A directory entry: a sub-directory with its own listing, a regular file, or anything else. */
  datatype Entry = DirEntry(name: string, dir: Dir) | FileEntry(name: string) | OtherEntry(name: string)

  /** One `fs.writeFile(indexPath, indexContent)`. */
  datatype IndexWrite = IndexWrite(path: string, content: string)

  /**
   * The state of the entry loop: the sub-directories and files collected,
   * the index files written so far, and the text of the error that ended it.
   */
  datatype Progress = Progress(subDirs: seq<string>, files: seq<string>, writes: seq<IndexWrite>, error: Option<string>)

  /** What one call leaves behind: the files written and the message of the error it throws. */
  datatype Run = Run(writes: seq<IndexWrite>, error: Option<string>)

  /** `path.join(dir, name)` for a name without '/'. */
  function JoinPath(dir: string, name: string): string {
    dir + "/" + name
  }

  /** `path.relative(baseDir, path.join(dir, name))`, with `relDir` the relative path of `dir` ("" at the top). */
  function RelativePath(relDir: string, name: string): string {
    if relDir == "" then name else relDir + "/" + name
  }

  /** The message of the error a failed directory throws, given the text of its cause. */
  function FailureMessage(dirPath: string, cause: string): string {
    "Failed to generate index for directory " + dirPath + ": " + cause
  }

  /** `path.join(dirPath, `index${config.indexFileExtension}`)` */
  function IndexPath(dirPath: string, config: FilledConfig): string {
    JoinPath(dirPath, "index" + config.indexFileExtension)
  }

  /** What the exclude test is given for an entry of `dirPath`. */
  function InfoOf(entry: Entry, dirPath: string, relDir: string): EntryInfo {
    EntryInfo(JoinPath(dirPath, entry.name), RelativePath(relDir, entry.name), entry.name)
  }

  /** A call of `generateIndexFileForDir` on `d`. */
  function DirRun(d: Dir, dirPath: string, relDir: string, config: FilledConfig, glob: (string, string) -> bool): Run
    decreases d, 1, 0
  {
    match d
    case Unreadable(reason) => Run([], Some(FailureMessage(dirPath, reason)))
    case Listing(entries) =>
      var p := EntriesRun(d, |entries|, dirPath, relDir, config, glob);
      if p.error.Some? then Run(p.writes, Some(FailureMessage(dirPath, p.error.value)))
      else Run(p.writes + [IndexWrite(IndexPath(dirPath, config),
                                      GenerateIndexContent(p.subDirs, p.files, config.exportStatementExtension))], None)
  }

  /** The entry loop of a call on `d` after its first `i` entries. */
  function EntriesRun(d: Dir, i: nat, dirPath: string, relDir: string, config: FilledConfig,
                      glob: (string, string) -> bool): Progress
    requires d.Listing? && i <= |d.entries|
    decreases d, 0, i
  {
    if i == 0 then Progress([], [], [], None)
    else
      var p := EntriesRun(d, i - 1, dirPath, relDir, config, glob);
      var entry := d.entries[i - 1];
      var info := InfoOf(entry, dirPath, relDir);
      if p.error.Some? || Excluded(config.exclude, glob, info) then p
      else match entry
        case DirEntry(name, sub) =>
          assert entry in d.entries;
          var r := DirRun(sub, info.absolutePath, info.relativePath, config, glob);
          Progress(p.subDirs + [name], p.files, p.writes + r.writes,
                   if r.error.Some? then Some("Error: " + r.error.value) else None)
        case FileEntry(name) =>
          if ShouldExportFile(info.absolutePath, info.relativePath, config, glob)
          then Progress(p.subDirs, p.files + [name], p.writes, None)
          else p
        case OtherEntry(_) => p
  }

  /**
   * `generateIndexFileForDir(dirPath, config, baseDir)`: walks the entries
   * in listing order, recurses into each sub-directory that is not
   * excluded, collects the files to export, and writes the directory's own
   * index file last.
   */
  method GenerateIndexFileForDir(d: Dir, dirPath: string, relDir: string, config: FilledConfig,
                                 glob: (string, string) -> bool)
    returns (writes: seq<IndexWrite>, error: Option<string>)
    ensures Run(writes, error) == DirRun(d, dirPath, relDir, config, glob)
    decreases d
  {
    if d.Unreadable? {
      return [], Some(FailureMessage(dirPath, d.reason));
    }
    var entries := d.entries;
    var subDirectories: seq<string> := [];
    var filesToExport: seq<string> := [];
    var cause: Option<string> := None;
    writes := [];
    var i := 0;
    while i < |entries| && cause.None?
      invariant 0 <= i <= |entries|
      invariant Progress(subDirectories, filesToExport, writes, cause) == EntriesRun(d, i, dirPath, relDir, config, glob)
    {
      var entry := entries[i];
      var entryPath := JoinPath(dirPath, entry.name);
      var relativePath := RelativePath(relDir, entry.name);
      if !Excluded(config.exclude, glob, EntryInfo(entryPath, relativePath, entry.name)) {
        if entry.DirEntry? {
          subDirectories := subDirectories + [entry.name];
          assert entry in d.entries;
          var subWrites, subError := GenerateIndexFileForDir(entry.dir, entryPath, relativePath, config, glob);
          writes := writes + subWrites;
          if subError.Some? {
            cause := Some("Error: " + subError.value);
          }
        } else if entry.FileEntry? && ShouldExportFile(entryPath, relativePath, config, glob) {
          filesToExport := filesToExport + [entry.name];
        }
      }
      i := i + 1;
    }
    if cause.Some? {
      ErrorStops(d, i, |entries|, dirPath, relDir, config, glob);
      error := Some(FailureMessage(dirPath, cause.value));
    } else {
      var content := GenerateIndexContent(subDirectories, filesToExport, config.exportStatementExtension);
      writes := writes + [IndexWrite(IndexPath(dirPath, config), content)];
      error := None;
    }
  }

  /** Once an entry has failed, the remaining entries are not looked at. */
  lemma {:induction false} ErrorStops(d: Dir, i: nat, j: nat, dirPath: string, relDir: string,
                                      config: FilledConfig, glob: (string, string) -> bool)
    requires d.Listing? && i <= j <= |d.entries|
    requires EntriesRun(d, i, dirPath, relDir, config, glob).error.Some?
    ensures EntriesRun(d, j, dirPath, relDir, config, glob) == EntriesRun(d, i, dirPath, relDir, config, glob)
    decreases j
  {
    if j > i {
      ErrorStops(d, i, j - 1, dirPath, relDir, config, glob);
    }
  }

  /** The names of the sub-directories that are not excluded, in listing order. */
  function KeptSubDirs(entries: seq<Entry>, dirPath: string, relDir: string, config: FilledConfig,
                       glob: (string, string) -> bool): seq<string>
  {
    if entries == [] then []
    else
      var e := entries[|entries| - 1];
      var rest := KeptSubDirs(entries[..|entries| - 1], dirPath, relDir, config, glob);
      if e.DirEntry? && !Excluded(config.exclude, glob, InfoOf(e, dirPath, relDir)) then rest + [e.name] else rest
  }

  /** The names of the regular files that are not excluded and pass `shouldExportFile`, in listing order. */
  function ExportedFiles(entries: seq<Entry>, dirPath: string, relDir: string, config: FilledConfig,
                         glob: (string, string) -> bool): seq<string>
  {
    if entries == [] then []
    else
      var e := entries[|entries| - 1];
      var info := InfoOf(e, dirPath, relDir);
      var rest := ExportedFiles(entries[..|entries| - 1], dirPath, relDir, config, glob);
      if e.FileEntry? && !Excluded(config.exclude, glob, info)
         && ShouldExportFile(info.absolutePath, info.relativePath, config, glob)
      then rest + [e.name] else rest
  }

  /** What one more entry adds to the collected lists, when it does not fail. */
  lemma CollectStep(d: Dir, i: nat, dirPath: string, relDir: string, config: FilledConfig,
                    glob: (string, string) -> bool)
    requires d.Listing? && 0 < i <= |d.entries|
    requires EntriesRun(d, i, dirPath, relDir, config, glob).error.None?
    ensures EntriesRun(d, i - 1, dirPath, relDir, config, glob).error.None?
    ensures var p := EntriesRun(d, i - 1, dirPath, relDir, config, glob);
      var q := EntriesRun(d, i, dirPath, relDir, config, glob);
      var e := d.entries[i - 1];
      var info := InfoOf(e, dirPath, relDir);
      && q.subDirs == (if e.DirEntry? && !Excluded(config.exclude, glob, info) then p.subDirs + [e.name] else p.subDirs)
      && q.files == (if e.FileEntry? && !Excluded(config.exclude, glob, info)
                        && ShouldExportFile(info.absolutePath, info.relativePath, config, glob)
                     then p.files + [e.name] else p.files)
  {
  }

  /** The filters on a prefix one entry longer. */
  lemma FilterStep(entries: seq<Entry>, i: nat, dirPath: string, relDir: string, config: FilledConfig,
                   glob: (string, string) -> bool)
    requires 0 < i <= |entries|
    ensures var e := entries[i - 1];
      var info := InfoOf(e, dirPath, relDir);
      && KeptSubDirs(entries[..i], dirPath, relDir, config, glob)
         == (if e.DirEntry? && !Excluded(config.exclude, glob, info)
             then KeptSubDirs(entries[..i - 1], dirPath, relDir, config, glob) + [e.name]
             else KeptSubDirs(entries[..i - 1], dirPath, relDir, config, glob))
      && ExportedFiles(entries[..i], dirPath, relDir, config, glob)
         == (if e.FileEntry? && !Excluded(config.exclude, glob, info)
                && ShouldExportFile(info.absolutePath, info.relativePath, config, glob)
             then ExportedFiles(entries[..i - 1], dirPath, relDir, config, glob) + [e.name]
             else ExportedFiles(entries[..i - 1], dirPath, relDir, config, glob))
  {
    assert entries[..i][..i - 1] == entries[..i - 1];
    assert entries[..i][i - 1] == entries[i - 1];
  }

  /** While no entry has failed, the loop has collected exactly the kept sub-directories and the exported files. */
  lemma {:induction false} EntriesCollect(d: Dir, i: nat, dirPath: string, relDir: string,
                                          config: FilledConfig, glob: (string, string) -> bool)
    requires d.Listing? && i <= |d.entries|
    requires EntriesRun(d, i, dirPath, relDir, config, glob).error.None?
    ensures EntriesRun(d, i, dirPath, relDir, config, glob).subDirs == KeptSubDirs(d.entries[..i], dirPath, relDir, config, glob)
    ensures EntriesRun(d, i, dirPath, relDir, config, glob).files == ExportedFiles(d.entries[..i], dirPath, relDir, config, glob)
  {
    if i > 0 {
      CollectStep(d, i, dirPath, relDir, config, glob);
      EntriesCollect(d, i - 1, dirPath, relDir, config, glob);
      FilterStep(d.entries, i, dirPath, relDir, config, glob);
    }
  }

  /**
   * A directory that does not fail writes its own index file last, and
   * that file re-exports exactly the kept sub-directories and the exported
   * files, in listing order.
   */
  lemma DirIndexLast(d: Dir, dirPath: string, relDir: string, config: FilledConfig, glob: (string, string) -> bool)
    requires DirRun(d, dirPath, relDir, config, glob).error.None?
    ensures d.Listing?
    ensures var w := DirRun(d, dirPath, relDir, config, glob).writes;
      && |w| >= 1
      && w[|w| - 1] == IndexWrite(IndexPath(dirPath, config),
           GenerateIndexContent(KeptSubDirs(d.entries, dirPath, relDir, config, glob),
                                ExportedFiles(d.entries, dirPath, relDir, config, glob),
                                config.exportStatementExtension))
  {
    EntriesCollect(d, |d.entries|, dirPath, relDir, config, glob);
    assert d.entries[..|d.entries|] == d.entries;
  }

  /** A failing directory throws an error naming it. */
  lemma DirFailureNamesDir(d: Dir, dirPath: string, relDir: string, config: FilledConfig, glob: (string, string) -> bool)
    requires DirRun(d, dirPath, relDir, config, glob).error.Some?
    ensures StartsWith(DirRun(d, dirPath, relDir, config, glob).error.value,
                       "Failed to generate index for directory " + dirPath + ": ")
  {
    var m := DirRun(d, dirPath, relDir, config, glob).error.value;
    var prefix := "Failed to generate index for directory " + dirPath + ": ";
    assert m[..|prefix|] == prefix;
  }

  /** The index files a successful call writes: its own and those of every sub-directory it descends into. */
  ghost function IndexFiles(d: Dir, dirPath: string, relDir: string, config: FilledConfig,
                            glob: (string, string) -> bool): set<string>
    decreases d, 1, 0
  {
    match d
    case Unreadable(_) => {}
    case Listing(entries) => IndexFilesBelow(d, |entries|, dirPath, relDir, config, glob) + {IndexPath(dirPath, config)}
  }

  /** The index files of the kept sub-directories among the first `i` entries. */
  ghost function IndexFilesBelow(d: Dir, i: nat, dirPath: string, relDir: string, config: FilledConfig,
                                 glob: (string, string) -> bool): set<string>
    requires d.Listing? && i <= |d.entries|
    decreases d, 0, i
  {
    if i == 0 then {}
    else
      var entry := d.entries[i - 1];
      var info := InfoOf(entry, dirPath, relDir);
      var rest := IndexFilesBelow(d, i - 1, dirPath, relDir, config, glob);
      if entry.DirEntry? && !Excluded(config.exclude, glob, info) then
        assert entry in d.entries;
        rest + IndexFiles(entry.dir, info.absolutePath, info.relativePath, config, glob)
      else rest
  }

  /** The paths of a sequence of writes. */
  function WrittenPaths(writes: seq<IndexWrite>): (r: set<string>)
    ensures forall k :: 0 <= k < |writes| ==> writes[k].path in r
    ensures forall p :: p in r ==> exists k :: 0 <= k < |writes| && writes[k].path == p
  {
    set k | 0 <= k < |writes| :: writes[k].path
  }

  lemma WrittenPathsAppend(a: seq<IndexWrite>, b: seq<IndexWrite>)
    ensures WrittenPaths(a + b) == WrittenPaths(a) + WrittenPaths(b)
  {
    forall p | p in WrittenPaths(a) ensures p in WrittenPaths(a + b) {
      var k :| 0 <= k < |a| && a[k].path == p;
      assert (a + b)[k] == a[k];
    }
    forall p | p in WrittenPaths(a + b) ensures p in WrittenPaths(a) + WrittenPaths(b) {
      var k :| 0 <= k < |a + b| && (a + b)[k].path == p;
      if k >= |a| {
        assert b[k - |a|].path == p;
      }
    }
    forall p | p in WrittenPaths(b) ensures p in WrittenPaths(a + b) {
      var k :| 0 <= k < |b| && b[k].path == p;
      assert (a + b)[|a| + k] == b[k];
    }
  }

  /**
   * A successful call writes the index file of its own directory and of
   * every sub-directory it reaches, and no other file: excluded
   * sub-directories are not descended into.
   */
  lemma {:induction false} DirWritesIndexFiles(d: Dir, dirPath: string, relDir: string, config: FilledConfig,
                                               glob: (string, string) -> bool)
    requires DirRun(d, dirPath, relDir, config, glob).error.None?
    ensures WrittenPaths(DirRun(d, dirPath, relDir, config, glob).writes) == IndexFiles(d, dirPath, relDir, config, glob)
    decreases d, 1, 0
  {
    var p := EntriesRun(d, |d.entries|, dirPath, relDir, config, glob);
    EntriesWriteIndexFiles(d, |d.entries|, dirPath, relDir, config, glob);
    var own := IndexWrite(IndexPath(dirPath, config), GenerateIndexContent(p.subDirs, p.files, config.exportStatementExtension));
    WrittenPathsAppend(p.writes, [own]);
    assert WrittenPaths([own]) == {own.path} by {
      assert [own][0].path == own.path;
    }
  }

  lemma {:induction false} EntriesWriteIndexFiles(d: Dir, i: nat, dirPath: string, relDir: string,
                                                  config: FilledConfig, glob: (string, string) -> bool)
    requires d.Listing? && i <= |d.entries|
    requires EntriesRun(d, i, dirPath, relDir, config, glob).error.None?
    ensures WrittenPaths(EntriesRun(d, i, dirPath, relDir, config, glob).writes) == IndexFilesBelow(d, i, dirPath, relDir, config, glob)
    decreases d, 0, i
  {
    if i > 0 {
      var p := EntriesRun(d, i - 1, dirPath, relDir, config, glob);
      EntriesWriteIndexFiles(d, i - 1, dirPath, relDir, config, glob);
      var entry := d.entries[i - 1];
      var info := InfoOf(entry, dirPath, relDir);
      if entry.DirEntry? && !Excluded(config.exclude, glob, info) {
        assert entry in d.entries;
        var r := DirRun(entry.dir, info.absolutePath, info.relativePath, config, glob);
        DirWritesIndexFiles(entry.dir, info.absolutePath, info.relativePath, config, glob);
        WrittenPathsAppend(p.writes, r.writes);
      }
    }
  }
}
