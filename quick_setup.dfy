/**
 * `quick_setup.py`: checks that the project's directories, packages and files are
 * in place, reads `dependencies.txt` into (name, version) pairs and builds one
 * pip command per pair. `root` is the directory of the script; the file system
 * is a parameter, and `sys.exit` becomes a returned failure.
 */
module QuickSetup {
  import opened Results
  import opened Text
  import opened Files
  import opened Scan
  import opened Scripts

  /** The lists the script checks. */
  const Dirs: seq<string> := ["logs"]
  const Packages: seq<string> := ["injection", "logger"]
  const Modules: seq<string> := ["definitions.py", "dependencies.txt"]

  // ---------------------------------------------------------------------------
  // check_project_structure
  // ---------------------------------------------------------------------------

  /** A directory entry passes when its path exists and is a directory. */
  predicate DirOk(fs: FileSystem, root: string, dir: string)
  {
    var path := PathJoin(root, dir);
    fs.Exists(path) && fs.IsDir(path)
  }

  /** A package passes when its path is an existing directory holding something named `__init__.py`. */
  predicate PackageOk(fs: FileSystem, root: string, package: string)
  {
    var path := PathJoin(root, package);
    fs.Exists(path) && fs.IsDir(path) && fs.Exists(PathJoin(path, "__init__.py"))
  }

  /** A module entry passes when its path exists and is a regular file. */
  predicate ModuleOk(fs: FileSystem, root: string, moduleFile: string)
  {
    var path := PathJoin(root, moduleFile);
    fs.Exists(path) && fs.IsFile(path)
  }

  function DirCheck(fs: FileSystem, root: string): string -> bool
  {
    dir => DirOk(fs, root, dir)
  }

  function PackageCheck(fs: FileSystem, root: string): string -> bool
  {
    package => PackageOk(fs, root, package)
  }

  function ModuleCheck(fs: FileSystem, root: string): string -> bool
  {
    moduleFile => ModuleOk(fs, root, moduleFile)
  }

  function DirMessage(dir: string): string
  {
    "directory: " + dir + " is invalid!\n"
  }

  /** The package error naming the package that failed, as evidently intended. */
  function PackageMessage(package: string): string
  {
    "package: " + package + " is invalid!\n"
  }

  function ModuleMessage(moduleFile: string): string
  {
    "module: " + moduleFile + " is invalid!\n"
  }

  /**
   * How a bad package stops the script as written. The message is formatted
   * with `dir`, the target of the finished directory loop: it names the last
   * directory, whatever the failing package. With no directories `dir` is a
   * local that was never bound, and reading it raises `UnboundLocalError`.
   */
  function PackageFailureAsWritten(dirs: seq<string>): Failure
  {
    if dirs == [] then Raised("UnboundLocalError") else Exit(3, PackageMessage(dirs[|dirs| - 1]))
  }

  /**
   * The as-written failure is the intended exit only when there are directories
   * and the failing package happens to bear the name of the last one.
   */
  lemma PackageFailureAsWrittenNamesDir(dirs: seq<string>, package: string)
    ensures dirs == [] ==> PackageFailureAsWritten(dirs) == Raised("UnboundLocalError")
    ensures PackageFailureAsWritten(dirs) == Exit(3, PackageMessage(package)) <==>
      dirs != [] && package == dirs[|dirs| - 1]
  {
    if dirs != [] {
      var shown := dirs[|dirs| - 1];
      var a := PackageMessage(shown);
      var b := PackageMessage(package);
      if a == b {
        assert |shown| == |package|;
        assert shown == a[9..9 + |shown|];
        assert package == b[9..9 + |package|];
      }
    }
  }

  /** With the script's own lists, a bad `injection` package is reported as "package: logs is invalid!". */
  lemma ScriptReportsDirForPackage()
    ensures PackageFailureAsWritten(Dirs) == Exit(3, "package: logs is invalid!\n")
    ensures PackageFailureAsWritten(Dirs) != Exit(3, PackageMessage("injection"))
  {
    PackageFailureAsWrittenNamesDir(Dirs, "injection");
  }

  /** The corrected package error names the failing package. */
  lemma PackageMessageNamesPackage(package: string)
    ensures Contains(PackageMessage(package), package)
  {
    ContainsMiddle("package: ", package, " is invalid!\n");
  }

  /**
   * What `check_project_structure` ends with: the first bad directory exits with
   * 2, else a bad package fails as `PackageFailureAsWritten`, else the first bad
   * module exits with 4; otherwise "project...OK" is written.
   */
  function StructureVerdict(fs: FileSystem, root: string, modules: seq<string>, packages: seq<string>,
                            dirs: seq<string>): (r: Result<string, Failure>)
    ensures r.Ok? <==>
      && (forall i :: 0 <= i < |dirs| ==> DirOk(fs, root, dirs[i]))
      && (forall i :: 0 <= i < |packages| ==> PackageOk(fs, root, packages[i]))
      && (forall i :: 0 <= i < |modules| ==> ModuleOk(fs, root, modules[i]))
    ensures r.Ok? ==> r.value == "project...OK\n"
    ensures r.Err? && r.error.Exit? ==> 2 <= r.error.code <= 4
    ensures (exists i :: 0 <= i < |dirs| && !DirOk(fs, root, dirs[i])) ==> r.Err? && r.error.Exit? && r.error.code == 2
    ensures r.Err? && !(r.error.Exit? && r.error.code == 2) ==> forall i :: 0 <= i < |dirs| ==> DirOk(fs, root, dirs[i])
    ensures r.Err? && (r.error.Raised? || r.error.code == 3) ==>
      && r.error == PackageFailureAsWritten(dirs)
      && exists i :: 0 <= i < |packages| && !PackageOk(fs, root, packages[i])
    ensures r.Err? && r.error.Exit? && r.error.code == 4 ==>
      && (forall i :: 0 <= i < |packages| ==> PackageOk(fs, root, packages[i]))
      && (exists i :: 0 <= i < |modules| && !ModuleOk(fs, root, modules[i]))
  {
    var d := FirstFailing(dirs, DirCheck(fs, root));
    var p := FirstFailing(packages, PackageCheck(fs, root));
    var m := FirstFailing(modules, ModuleCheck(fs, root));
    if d.Some? then Err(Exit(2, DirMessage(dirs[d.value])))
    else if p.Some? then Err(PackageFailureAsWritten(dirs))
    else if m.Some? then Err(Exit(4, ModuleMessage(modules[m.value])))
    else Ok("project...OK\n")
  }

  /** The verdict when the `i`-th directory is the first bad one. */
  lemma DirFailureVerdict(fs: FileSystem, root: string, modules: seq<string>, packages: seq<string>,
                          dirs: seq<string>, i: nat)
    requires i < |dirs| && !DirOk(fs, root, dirs[i])
    requires forall j :: 0 <= j < i ==> DirOk(fs, root, dirs[j])
    ensures StructureVerdict(fs, root, modules, packages, dirs) == Err(Exit(2, DirMessage(dirs[i])))
  {
    FirstFailingAt(dirs, DirCheck(fs, root), i);
  }

  /**
   * The verdict when every directory is good and some package is bad: the
   * as-written failure, which depends on the directories and not on the package.
   */
  lemma PackageFailureVerdict(fs: FileSystem, root: string, modules: seq<string>, packages: seq<string>,
                              dirs: seq<string>, i: nat)
    requires forall j :: 0 <= j < |dirs| ==> DirOk(fs, root, dirs[j])
    requires i < |packages| && !PackageOk(fs, root, packages[i])
    ensures StructureVerdict(fs, root, modules, packages, dirs) == Err(PackageFailureAsWritten(dirs))
  {
  }

  /** The verdict when every directory and package is good and the `i`-th module is the first bad one. */
  lemma ModuleFailureVerdict(fs: FileSystem, root: string, modules: seq<string>, packages: seq<string>,
                             dirs: seq<string>, i: nat)
    requires forall j :: 0 <= j < |dirs| ==> DirOk(fs, root, dirs[j])
    requires forall j :: 0 <= j < |packages| ==> PackageOk(fs, root, packages[j])
    requires i < |modules| && !ModuleOk(fs, root, modules[i])
    requires forall j :: 0 <= j < i ==> ModuleOk(fs, root, modules[j])
    ensures StructureVerdict(fs, root, modules, packages, dirs) == Err(Exit(4, ModuleMessage(modules[i])))
  {
    FirstFailingAt(modules, ModuleCheck(fs, root), i);
  }

  /**
   * `check_project_structure(modules, packages, dirs)`: three loops, each
   * stopping at its first failure. `dir` is the directory loop's target, which
   * stays bound to the last directory after the loop and is never bound when
   * there are none.
   */
  method CheckProjectStructure(fs: FileSystem, root: string, modules: seq<string>, packages: seq<string>,
                               dirs: seq<string>) returns (r: Result<string, Failure>)
    ensures r == StructureVerdict(fs, root, modules, packages, dirs)
  {
    var dir: Option<string> := None;
    for i := 0 to |dirs|
      invariant dir == if i == 0 then None else Some(dirs[i - 1])
      invariant forall j :: 0 <= j < i ==> DirOk(fs, root, dirs[j])
    {
      dir := Some(dirs[i]);
      var path := PathJoin(root, dirs[i]);
      if !fs.Exists(path) || !fs.IsDir(path) {
        DirFailureVerdict(fs, root, modules, packages, dirs, i);
        return Err(Exit(2, DirMessage(dirs[i])));
      }
    }
    for i := 0 to |packages|
      invariant forall j :: 0 <= j < i ==> PackageOk(fs, root, packages[j])
    {
      var path := PathJoin(root, packages[i]);
      if !fs.Exists(path) || !fs.IsDir(path) || !fs.Exists(PathJoin(path, "__init__.py")) {
        PackageFailureVerdict(fs, root, modules, packages, dirs, i);
        if dir.None? {
          return Err(Raised("UnboundLocalError"));
        }
        return Err(Exit(3, PackageMessage(dir.value)));
      }
    }
    for i := 0 to |modules|
      invariant forall j :: 0 <= j < i ==> ModuleOk(fs, root, modules[j])
    {
      var path := PathJoin(root, modules[i]);
      if !fs.Exists(path) || !fs.IsFile(path) {
        ModuleFailureVerdict(fs, root, modules, packages, dirs, i);
        return Err(Exit(4, ModuleMessage(modules[i])));
      }
    }
    return Ok("project...OK\n");
  }

  // ---------------------------------------------------------------------------
  // parse_dependencies
  // ---------------------------------------------------------------------------

  /** The line with its comment dropped: the text before the first '#', when there is one. */
  function Uncommented(line: string): string
  {
    if '#' in line then Split(line, '#')[0] else line
  }

  /**
   * One pass of the `while line:` loop: drop the comment, strip, split on ':' and
   * take fields 0 and 1. `None` stands for the `IndexError` that `line[1]` raises
   * when there is no second field.
   */
  function ParseLine(line: string): Option<Dependency>
  {
    var fields := Split(Strip(Uncommented(line)), ':');
    if |fields| < 2 then None else Some(Dependency(fields[0], fields[1]))
  }

  /** Dropping the comment keeps exactly the text before the first '#'. */
  lemma UncommentedIsBeforeFirst(line: string)
    ensures Uncommented(line) == BeforeFirst(line, '#')
    ensures Uncommented(line) <= line && '#' !in Uncommented(line)
  {
    BeforeFirstIsPrefix(line, '#');
  }

  /**
   * A line fails exactly when no ':' precedes its comment; in particular blank
   * lines and comment-only lines fail.
   */
  lemma ParseLineFailsWithoutColon(line: string)
    ensures ParseLine(line).None? <==> ':' !in BeforeFirst(line, '#')
    ensures (forall k :: 0 <= k < |line| ==> IsSpace(line[k])) ==> ParseLine(line).None?
    ensures |line| > 0 && line[0] == '#' ==> ParseLine(line).None?
  {
    UncommentedIsBeforeFirst(line);
    var text := Uncommented(line);
    StripKeepsOthers(text, ':');
    BeforeFirstIsPrefix(Strip(text), ':');
    if forall k :: 0 <= k < |line| ==> IsSpace(line[k]) {
      assert ':' !in line;
    }
  }

  /** The line `dependencies.txt` holds for `d`: name and version separated by ':'. */
  function Format(d: Dependency): string
  {
    d.name + ":" + d.version
  }

  /** A dependency that survives being written as a line: no separator, comment or newline inside, no blank ends. */
  predicate WellFormed(d: Dependency)
  {
    && ':' !in d.name && ':' !in d.version
    && '#' !in d.name && '#' !in d.version
    && '\n' !in d.name && '\n' !in d.version
    && (d.name == [] || !IsSpace(d.name[0]))
    && (d.version == [] || !IsSpace(d.version[|d.version| - 1]))
  }

  /** The field before a separator that does not occur in the first part lies in the later part. */
  lemma BeforeFirstAfterFree(a: string, t: string, c: char)
    requires c !in a
    ensures BeforeFirst(a + t, c) == a + BeforeFirst(t, c)
  {
    SplitPrefixWithoutSeparator(a, t, c);
  }

  /** A comment after white space is dropped together with nothing else. */
  lemma UncommentedPadded(text: string, pad: string, comment: string)
    requires '#' !in text
    requires forall k :: 0 <= k < |pad| ==> IsSpace(pad[k])
    requires comment == [] || comment[0] == '#'
    ensures Uncommented(text + pad + comment) == text + pad
  {
    var line := text + pad + comment;
    assert '#' !in pad;
    assert '#' !in text + pad;
    UncommentedIsBeforeFirst(line);
    BeforeFirstAfterFree(text + pad, comment, '#');
    if comment != [] {
      assert BeforeFirst(comment, '#') == [];
    } else {
      SplitWithoutSeparator(text + pad, '#');
    }
  }

  /** The fields of a formatted line are the name and the version. */
  lemma FormatFields(d: Dependency)
    requires ':' !in d.name && ':' !in d.version
    ensures Split(Format(d), ':') == [d.name, d.version]
  {
    SplitAtFirst(d.name, d.version, ':');
    SplitWithoutSeparator(d.version, ':');
  }

  /**
   * A formatted line, followed by white space and optionally a comment, parses back
   * to the dependency it was written from.
   */
  lemma ParseLineRoundTrip(d: Dependency, pad: string, comment: string)
    requires WellFormed(d)
    requires forall k :: 0 <= k < |pad| ==> IsSpace(pad[k])
    requires comment == [] || comment[0] == '#'
    ensures ParseLine(Format(d) + pad + comment) == Some(d)
  {
    var text := Format(d);
    assert '#' !in text;
    UncommentedPadded(text, pad, comment);
    assert text[0] == (if d.name == [] then ':' else d.name[0]);
    assert text[|text| - 1] == (if d.version == [] then ':' else d.version[|d.version| - 1]);
    StripPadded(text, pad);
    FormatFields(d);
  }

  /** The first two fields of a formatted line followed by more fields are the name and the version. */
  lemma FormatFieldsExtended(d: Dependency, extra: string)
    requires ':' !in d.name && ':' !in d.version
    ensures var fields := Split(Format(d) + ":" + extra, ':');
      |fields| >= 2 && fields[0] == d.name && fields[1] == d.version
  {
    assert Format(d) + ":" + extra == d.name + [':'] + (d.version + [':'] + extra);
    SplitAtFirst(d.name, d.version + [':'] + extra, ':');
    SplitAtFirst(d.version, extra, ':');
  }

  /** Fields after the second are ignored. */
  lemma ParseLineIgnoresExtraFields(d: Dependency, extra: string)
    requires WellFormed(d)
    requires '#' !in extra
    requires extra == [] || !IsSpace(extra[|extra| - 1])
    ensures ParseLine(Format(d) + ":" + extra) == Some(d)
  {
    var line := Format(d) + ":" + extra;
    assert '#' !in line;
    assert Uncommented(line) == line;
    assert line[0] == (if d.name == [] then ':' else d.name[0]);
    assert line[|line| - 1] == (if extra == [] then ':' else extra[|extra| - 1]);
    StripKeeps(line);
    FormatFieldsExtended(d, extra);
  }

  /**
   * The dependencies read from the lines of the file, one per line in order, or
   * `None` when some line has no second field.
   */
  function ParseAll(lines: seq<string>): (r: Option<seq<Dependency>>)
    ensures r.Some? <==> forall i :: 0 <= i < |lines| ==> ParseLine(lines[i]).Some?
    ensures r.Some? ==> |r.value| == |lines|
    ensures r.Some? ==> forall i :: 0 <= i < |lines| ==> ParseLine(lines[i]) == Some(r.value[i])
  {
    MapAll(lines, ParseLine)
  }

  /** Lines that each parse to the matching dependency parse, all together, to that sequence. */
  lemma ParseAllMatches(lines: seq<string>, ds: seq<Dependency>)
    requires |ds| == |lines|
    requires forall k :: 0 <= k < |lines| ==> ParseLine(lines[k]) == Some(ds[k])
    ensures ParseAll(lines) == Some(ds)
  {
    var all := ParseAll(lines);
    assert all.Some?;
    assert all.value == ds;
  }

  /** The loop step: one more parsed line extends the parsed prefix. */
  lemma ParsedOneMore(lines: seq<string>, ds: seq<Dependency>, d: Dependency)
    requires |ds| < |lines|
    requires forall k :: 0 <= k < |ds| ==> ParseLine(lines[k]) == Some(ds[k])
    requires ParseLine(lines[|ds|]) == Some(d)
    ensures forall k :: 0 <= k < |ds| + 1 ==> ParseLine(lines[k]) == Some((ds + [d])[k])
  {
  }

  /** The text of a `dependencies.txt` holding `ds`, one line each. */
  function DependencyFile(ds: seq<Dependency>): string
  {
    Concat(seq(|ds|, i requires 0 <= i < |ds| => Format(ds[i]) + "\n"))
  }

  /** A formatted line with its newline parses back to its dependency. */
  lemma ParseTerminated(d: Dependency)
    requires WellFormed(d)
    ensures ParseLine(Format(d) + "\n") == Some(d)
  {
    ParseLineRoundTrip(d, "\n", "");
    assert Format(d) + "\n" + "" == Format(d) + "\n";
  }

  /** Reading back a file written from well-formed dependencies gives those dependencies. */
  lemma DependencyFileRoundTrip(ds: seq<Dependency>)
    requires forall i :: 0 <= i < |ds| ==> WellFormed(ds[i])
    ensures ParseAll(Lines(DependencyFile(ds))) == Some(ds)
  {
    var texts := seq(|ds|, i requires 0 <= i < |ds| => Format(ds[i]));
    forall i | 0 <= i < |texts| ensures '\n' !in texts[i] {
      assert texts[i] == ds[i].name + ":" + ds[i].version;
    }
    LinesOfTerminated(texts);
    var terminated := seq(|texts|, i requires 0 <= i < |texts| => texts[i] + "\n");
    assert seq(|ds|, i requires 0 <= i < |ds| => Format(ds[i]) + "\n") == terminated;
    var lines := Lines(DependencyFile(ds));
    assert lines == terminated;
    forall i | 0 <= i < |lines| ensures ParseLine(lines[i]) == Some(ds[i]) {
      ParseTerminated(ds[i]);
    }
    ParseAllMatches(lines, ds);
  }

  /** `os.path.join(root, 'dependencies.txt')`. */
  function DependencyPath(root: string): string
  {
    PathJoin(root, "dependencies.txt")
  }

  /**
   * What `parse_dependencies` ends with: exit 1 when the file is missing, the
   * error `open` raises on a directory, the `IndexError` of a line without a
   * second field, or the pairs of all lines in order.
   */
  function ParseVerdict(fs: FileSystem, root: string): (r: Result<seq<Dependency>, Failure>)
    ensures r == Err(Exit(1, "Missing dependencies.txt!")) <==> !fs.Exists(DependencyPath(root))
    ensures r.Ok? ==> fs.IsFile(DependencyPath(root))
    ensures r.Ok? ==> var lines := Lines(fs.files[DependencyPath(root)]);
      |r.value| == |lines| && forall i :: 0 <= i < |lines| ==> ParseLine(lines[i]) == Some(r.value[i])
  {
    var path := DependencyPath(root);
    if !fs.Exists(path) then Err(Exit(1, "Missing dependencies.txt!"))
    else if path !in fs.files then Err(Raised("IsADirectoryError"))
    else
      match ParseAll(Lines(fs.files[path]))
      case None => Err(Raised("IndexError"))
      case Some(ds) => Ok(ds)
  }

  /** `parse_dependencies()`: the `while line:` loop over the lines `readline` returns. */
  method ParseDependencies(fs: FileSystem, root: string) returns (r: Result<seq<Dependency>, Failure>)
    ensures r == ParseVerdict(fs, root)
  {
    var path := DependencyPath(root);
    if !fs.Exists(path) {
      return Err(Exit(1, "Missing dependencies.txt!"));
    }
    if path !in fs.files {
      return Err(Raised("IsADirectoryError"));
    }
    var lines := Lines(fs.files[path]);
    var dependencies: seq<Dependency> := [];
    var i := 0;
    while i < |lines|
      invariant 0 <= i <= |lines|
      invariant |dependencies| == i
      invariant forall k :: 0 <= k < i ==> ParseLine(lines[k]) == Some(dependencies[k])
    {
      var parsed := ParseLine(lines[i]);
      if parsed.None? {
        return Err(Raised("IndexError"));
      }
      ParsedOneMore(lines, dependencies, parsed.value);
      dependencies := dependencies + [parsed.value];
      i := i + 1;
    }
    ParseAllMatches(lines, dependencies);
    return Ok(dependencies);
  }

  // ---------------------------------------------------------------------------
  // exec_pip and the script
  // ---------------------------------------------------------------------------

  /** The command `exec_pip` runs: pip installs the dependency's requirement. */
  function PipCommand(d: Dependency): (r: seq<string>)
    ensures |r| == 5 && r[..4] == ["python", "-m", "pip", "install"]
    ensures d.version == Latest ==> r[4] == d.name
    ensures d.version != Latest ==> r[4] == d.name + d.version
  {
    ["python", "-m", "pip", "install", Requirement(d)]
  }

  /** The loop step of the script: one more command for the next dependency. */
  lemma CommandsOneMore(ds: seq<Dependency>, commands: seq<seq<string>>)
    requires |commands| < |ds|
    requires forall k :: 0 <= k < |commands| ==> commands[k] == PipCommand(ds[k])
    ensures forall k :: 0 <= k < |commands| + 1 ==>
      (commands + [PipCommand(ds[|commands|])])[k] == PipCommand(ds[k])
  {
  }

  /**
   * The script: the structure check runs first and a failure there stops it
   * before `dependencies.txt` is read; otherwise every parsed dependency gets one
   * pip command, in file order.
   */
  method Run(fs: FileSystem, root: string, modules: seq<string>, packages: seq<string>, dirs: seq<string>)
    returns (r: Result<seq<seq<string>>, Failure>)
    ensures StructureVerdict(fs, root, modules, packages, dirs).Err? ==>
      r == Err(StructureVerdict(fs, root, modules, packages, dirs).error)
    ensures StructureVerdict(fs, root, modules, packages, dirs).Ok? && ParseVerdict(fs, root).Err? ==>
      r == Err(ParseVerdict(fs, root).error)
    ensures r.Ok? <==> StructureVerdict(fs, root, modules, packages, dirs).Ok? && ParseVerdict(fs, root).Ok?
    ensures r.Ok? ==> var ds := ParseVerdict(fs, root).value;
      |r.value| == |ds| && forall i :: 0 <= i < |ds| ==> r.value[i] == PipCommand(ds[i])
  {
    var structure := CheckProjectStructure(fs, root, modules, packages, dirs);
    if structure.Err? {
      return Err(structure.error);
    }
    var parsed := ParseDependencies(fs, root);
    if parsed.Err? {
      return Err(parsed.error);
    }
    var commands: seq<seq<string>> := [];
    for i := 0 to |parsed.value|
      invariant |commands| == i
      invariant forall k :: 0 <= k < i ==> commands[k] == PipCommand(parsed.value[k])
    {
      CommandsOneMore(parsed.value, commands);
      commands := commands + [PipCommand(parsed.value[i])];
    }
    return Ok(commands);
  }
}
