/**
 * `setup.py`: checks the internal packages and modules, finds the library roots
 * on `sys.path`, collects the names of the installed modules from them, reports
 * the dependencies that are missing and ends with a summary. The file system,
 * `sys.path` and the listings `os.walk` produces are parameters; `sys.exit`
 * becomes a returned failure.
 */
module Setup {
  import opened Results
  import opened Text
  import opened Files
  import opened Scan
  import opened Scripts
  import QuickSetup

  const Author := "Dylan Randall"
  const Email := "dylan.d.randall@gmail.com"
  const LastUpdated := "12/05/2018"
  const MinCompatibleVersion: seq<nat> := [3, 6]
  const SetupDependencies: seq<Dependency> := [Dependency("requests", "-1")]
  const Packages: seq<string> := ["injection", "logger"]
  const Modules: seq<string> := ["definitions"]

  // ---------------------------------------------------------------------------
  // The minimum version string
  // ---------------------------------------------------------------------------

  /** `str(v)` of every version component. */
  function VersionParts(cs: seq<nat>): seq<string>
  {
    seq(|cs|, i requires 0 <= i < |cs| => DecimalString(cs[i]))
  }

  /** `min_v`: every component followed by '.', then the last character cut off. */
  method MinVersionString(cs: seq<nat>) returns (s: string)
    ensures s == Join(VersionParts(cs), '.')
  {
    var minV := "";
    for i := 0 to |cs|
      invariant i == 0 ==> minV == ""
      invariant i > 0 ==> minV == Join(VersionParts(cs[..i]), '.') + "."
    {
      assert VersionParts(cs[..i + 1]) == VersionParts(cs[..i]) + [DecimalString(cs[i])];
      if i > 0 {
        JoinSnoc(VersionParts(cs[..i]), DecimalString(cs[i]), '.');
      }
      minV := minV + DecimalString(cs[i]) + ".";
    }
    assert cs[..|cs|] == cs;
    s := if minV == "" then "" else minV[..|minV| - 1];
  }

  /**
   * The version string has no stray dot: split at its dots it gives one decimal
   * numeral per component, and each reads back as that component.
   */
  lemma VersionStringRoundTrip(cs: seq<nat>)
    requires |cs| >= 1
    ensures var fields := Split(Join(VersionParts(cs), '.'), '.');
      && fields == VersionParts(cs)
      && forall i :: 0 <= i < |cs| ==> DecimalValue(fields[i]) == cs[i]
  {
    var parts := VersionParts(cs);
    forall i | 0 <= i < |parts| ensures '.' !in parts[i] {
    }
    SplitJoin(parts, '.');
    forall i | 0 <= i < |cs| ensures DecimalValue(parts[i]) == cs[i] {
      DecimalRoundTrip(cs[i]);
    }
  }

  /** The project's minimum version `(3, 6)` is shown as "3.6". */
  lemma MinimumVersionShown()
    ensures Join(VersionParts(MinCompatibleVersion), '.') == "3.6"
  {
    assert VersionParts(MinCompatibleVersion) == ["3", "6"];
  }

  // ---------------------------------------------------------------------------
  // Internal packages and modules
  // ---------------------------------------------------------------------------

  /** The exit code the checks of one package stop at, or 0 when it passes all four. */
  function PackageStatus(fs: FileSystem, root: string, package: string): nat
  {
    var path := PathJoin(root, package);
    var init := PathJoin(path, "__init__.py");
    if !fs.Exists(path) then 2
    else if !fs.IsDir(path) then 3
    else if !fs.Exists(init) then 4
    else if !fs.IsFile(init) then 5
    else 0
  }

  /** The message written before exiting with `PackageStatus`. */
  function PackageError(fs: FileSystem, root: string, package: string): string
  {
    var path := PathJoin(root, package);
    match PackageStatus(fs, root, package)
    case 2 => "Missing internal package: " + package + " !\n"
    case 3 => "Invalid internal package path: " + path + " is not a directory!\n"
    case 4 => "Missing __init__.py for internal package: " + package + " !\n"
    case _ => "Invalid __init__.py for internal package: " + package + " !\n"
  }

  function PackagePasses(fs: FileSystem, root: string): string -> bool
  {
    package => PackageStatus(fs, root, package) == 0
  }

  /**
   * A package passes exactly when its path is a directory holding a regular file
   * `__init__.py`; on a consistent file system a package that exists but is no
   * directory is a regular file. This check is stricter than the one of
   * `quick_setup.py`, which also accepts a directory named `__init__.py`.
   */
  lemma PackageStatusMeaning(fs: FileSystem, root: string, package: string)
    requires fs.Consistent()
    ensures var path := PathJoin(root, package);
      var init := PathJoin(path, "__init__.py");
      var status := PackageStatus(fs, root, package);
      && (status == 0 <==> fs.IsDir(path) && fs.IsFile(init))
      && (status == 3 ==> fs.IsFile(path))
      && (status == 5 ==> fs.IsDir(init))
      && (status == 0 ==> QuickSetup.PackageOk(fs, root, package))
      && (QuickSetup.PackageOk(fs, root, package) <==> status == 0 || status == 5)
  {
  }

  /** The exit code the checks of one module stop at, or 0 when it passes both. */
  function ModuleStatus(fs: FileSystem, root: string, moduleName: string): nat
  {
    var path := PathJoin(root, moduleName + ".py");
    if !fs.Exists(path) then 6
    else if !fs.IsFile(path) then 7
    else 0
  }

  /** The message written before exiting with `ModuleStatus`. */
  function ModuleError(fs: FileSystem, root: string, moduleName: string): string
  {
    var path := PathJoin(root, moduleName + ".py");
    if ModuleStatus(fs, root, moduleName) == 6 then "Missing internal module: " + moduleName + " !\n"
    else "Invalid internal module path: " + path + " is not a file!\n"
  }

  function ModulePasses(fs: FileSystem, root: string): string -> bool
  {
    moduleName => ModuleStatus(fs, root, moduleName) == 0
  }

  /** A module passes exactly when `<name>.py` is a regular file; on a consistent file system a 7 means it is a directory. */
  lemma ModuleStatusMeaning(fs: FileSystem, root: string, moduleName: string)
    requires fs.Consistent()
    ensures var path := PathJoin(root, moduleName + ".py");
      var status := ModuleStatus(fs, root, moduleName);
      && (status == 0 <==> fs.IsFile(path))
      && (status == 6 <==> !fs.Exists(path))
      && (status == 7 <==> fs.IsDir(path))
  {
  }

  /** The four checks of one package, in the order the loop makes them, with the exit code and message they stop at. */
  method PackageChecks(fs: FileSystem, root: string, package: string) returns (code: nat, message: string)
    ensures code == PackageStatus(fs, root, package)
    ensures code != 0 ==> message == PackageError(fs, root, package)
  {
    var path := PathJoin(root, package);
    code, message := 0, "";
    if !fs.Exists(path) {
      code, message := 2, "Missing internal package: " + package + " !\n";
    } else if !fs.IsDir(path) {
      code, message := 3, "Invalid internal package path: " + path + " is not a directory!\n";
    } else {
      var pathToInit := PathJoin(path, "__init__.py");
      if !fs.Exists(pathToInit) {
        code, message := 4, "Missing __init__.py for internal package: " + package + " !\n";
      } else if !fs.IsFile(pathToInit) {
        code, message := 5, "Invalid __init__.py for internal package: " + package + " !\n";
      }
    }
  }

  /**
   * The package loop: "<package>...OK" for every package that passes, up to the
   * first that fails, which exits with its status after its message; when all
   * pass, the closing "internal packages...OK".
   */
  method CheckPackages(fs: FileSystem, root: string, packages: seq<string>)
    returns (out: string, r: Result<(), Failure>)
    ensures var f := FirstFailing(packages, PackagePasses(fs, root));
      && (f.None? ==> r.Ok? && out == "checking internal packages...\n" + Suffixed(packages, "...OK\n")
                                     + "internal packages...OK\n")
      && (f.Some? ==> var bad := packages[f.value];
            && r == Err(Exit(PackageStatus(fs, root, bad), PackageError(fs, root, bad)))
            && out == "checking internal packages...\n" + Suffixed(packages[..f.value], "...OK\n"))
  {
    out := "checking internal packages...\n";
    for i := 0 to |packages|
      invariant forall j :: 0 <= j < i ==> PackageStatus(fs, root, packages[j]) == 0
      invariant out == "checking internal packages...\n" + Suffixed(packages[..i], "...OK\n")
    {
      var package := packages[i];
      var code, message := PackageChecks(fs, root, package);
      if code != 0 {
        FirstFailingAt(packages, PackagePasses(fs, root), i);
        return out, Err(Exit(code, message));
      }
      SuffixedSnoc(packages, "...OK\n", i);
      AppendAssociates("checking internal packages...\n", Suffixed(packages[..i], "...OK\n"), package + "...OK\n");
      out := out + (package + "...OK\n");
    }
    assert packages[..|packages|] == packages;
    out := out + "internal packages...OK\n";
    r := Ok(());
  }

  /** The module loop, with the exit codes 6 and 7 and the closing "internal modules...OK". */
  method CheckModules(fs: FileSystem, root: string, modules: seq<string>)
    returns (out: string, r: Result<(), Failure>)
    ensures var f := FirstFailing(modules, ModulePasses(fs, root));
      && (f.None? ==> r.Ok? && out == "checking internal modules...\n" + Suffixed(modules, "...OK\n")
                                     + "internal modules...OK\n")
      && (f.Some? ==> var bad := modules[f.value];
            && r == Err(Exit(ModuleStatus(fs, root, bad), ModuleError(fs, root, bad)))
            && out == "checking internal modules...\n" + Suffixed(modules[..f.value], "...OK\n"))
  {
    out := "checking internal modules...\n";
    for i := 0 to |modules|
      invariant forall j :: 0 <= j < i ==> ModuleStatus(fs, root, modules[j]) == 0
      invariant out == "checking internal modules...\n" + Suffixed(modules[..i], "...OK\n")
    {
      var moduleName := modules[i];
      var path := PathJoin(root, moduleName + ".py");
      if !fs.Exists(path) {
        FirstFailingAt(modules, ModulePasses(fs, root), i);
        return out, Err(Exit(6, "Missing internal module: " + moduleName + " !\n"));
      }
      if !fs.IsFile(path) {
        FirstFailingAt(modules, ModulePasses(fs, root), i);
        return out, Err(Exit(7, "Invalid internal module path: " + path + " is not a file!\n"));
      }
      SuffixedSnoc(modules, "...OK\n", i);
      AppendAssociates("checking internal modules...\n", Suffixed(modules[..i], "...OK\n"), moduleName + "...OK\n");
      out := out + (moduleName + "...OK\n");
    }
    assert modules[..|modules|] == modules;
    out := out + "internal modules...OK\n";
    r := Ok(());
  }

  // ---------------------------------------------------------------------------
  // Library roots
  // ---------------------------------------------------------------------------

  /** `path.split('\\')[-1:][0]`: the last backslash-separated component. */
  function EndDir(path: string): string
  {
    AfterLast(path, '\\')
  }

  /** A `sys.path` entry is a library root when it is a directory whose last component is `lib` or `site-packages`. */
  predicate IsLibRoot(fs: FileSystem, path: string)
  {
    fs.IsDir(path) && (EndDir(path) == "lib" || EndDir(path) == "site-packages")
  }

  /** The library roots among the entries, in `sys.path` order. */
  function LibRootsOf(fs: FileSystem, sysPath: seq<string>): seq<string>
  {
    if sysPath == [] then []
    else
      var front := LibRootsOf(fs, sysPath[..|sysPath| - 1]);
      var last := sysPath[|sysPath| - 1];
      if IsLibRoot(fs, last) then front + [last] else front
  }

  /** `lib_roots` holds exactly the library roots of `sys.path`, keeping their order. */
  lemma {:induction false} LibRootsMeaning(fs: FileSystem, sysPath: seq<string>)
    ensures forall p :: p in LibRootsOf(fs, sysPath) <==> p in sysPath && IsLibRoot(fs, p)
    ensures |LibRootsOf(fs, sysPath)| <= |sysPath|
    decreases |sysPath|
  {
    if sysPath != [] {
      var front := sysPath[..|sysPath| - 1];
      LibRootsMeaning(fs, front);
      assert sysPath == front + [sysPath[|sysPath| - 1]];
    }
  }

  /** The roots of two runs of entries, one after the other, are the roots of each, in that order. */
  lemma {:induction false} LibRootsOfAppend(fs: FileSystem, a: seq<string>, b: seq<string>)
    ensures LibRootsOf(fs, a + b) == LibRootsOf(fs, a) + LibRootsOf(fs, b)
    decreases |b|
  {
    if b == [] {
      assert a + b == a;
    } else {
      var front := b[..|b| - 1];
      LibRootsOfAppend(fs, a, front);
      assert (a + b)[..|a + b| - 1] == a + front;
    }
  }

  /**
   * A path without a backslash, as every POSIX path is, is a library root only
   * when the whole path is `lib` or `site-packages`.
   */
  lemma PathWithoutBackslash(fs: FileSystem, path: string)
    requires '\\' !in path
    ensures IsLibRoot(fs, path) <==> fs.IsDir(path) && (path == "lib" || path == "site-packages")
  {
    SplitWithoutSeparator(path, '\\');
  }

  /** The `for path in sys.path` loop. */
  method LibRoots(fs: FileSystem, sysPath: seq<string>) returns (libRoots: seq<string>, out: string)
    ensures libRoots == LibRootsOf(fs, sysPath)
    ensures out == "getting library paths...\n" + Suffixed(libRoots, "...OK\n")
  {
    libRoots := [];
    out := "getting library paths...\n";
    for i := 0 to |sysPath|
      invariant libRoots == LibRootsOf(fs, sysPath[..i])
      invariant out == "getting library paths...\n" + Suffixed(libRoots, "...OK\n")
    {
      var path := sysPath[i];
      assert sysPath[..i + 1][..i] == sysPath[..i];
      if fs.IsDir(path) {
        var endDir := AfterLast(path, '\\');
        if endDir == "lib" || endDir == "site-packages" {
          SuffixedSnoc(libRoots + [path], "...OK\n", |libRoots|);
          assert (libRoots + [path])[..|libRoots|] == libRoots;
          assert (libRoots + [path])[..|libRoots| + 1] == libRoots + [path];
          AppendAssociates("getting library paths...\n", Suffixed(libRoots, "...OK\n"), path + "...OK\n");
          libRoots := libRoots + [path];
          out := out + (path + "...OK\n");
        }
      }
    }
    assert sysPath[..|sysPath|] == sysPath;
  }

  // ---------------------------------------------------------------------------
  // Available modules
  // ---------------------------------------------------------------------------

  /** Names that never count as available modules. */
  const Skip: seq<string> := ["__init__", "__pycache__", "test", "readme", "_version", "_utils", "_main",
    "_monitor", "_collections", "top_level", "metadata", "installer", "commands", "record", "_installed",
    "__main__", "make_mode"]

  /**
   * The module name a file or directory name stands for: nothing for an empty
   * name or one starting with '_'; otherwise the part before the first '.',
   * then the part of that before the first '-', lower-cased.
   */
  function NormaliseName(name: string): Option<string>
  {
    if name == "" || name[0] == '_' then None
    else
      var parts := Split(name, '.');
      var stem := if |parts| > 1 then parts[0] else name;
      var pieces := Split(stem, '-');
      var base := if |pieces| > 1 then pieces[0] else stem;
      Some(Lower(base))
  }

  /** Lower case, no '.' and no '-'. */
  predicate Normalised(n: string)
  {
    (forall i :: 0 <= i < |n| ==> !IsUpper(n[i])) && '.' !in n && '-' !in n
  }

  /**
   * Names that are empty or start with '_' are skipped; every other name becomes
   * a normalised prefix, lower-cased, of itself.
   */
  lemma NormaliseNameShape(name: string)
    ensures NormaliseName(name).None? <==> name == "" || name[0] == '_'
    ensures NormaliseName(name).Some? ==>
      NormaliseName(name).value == Lower(BeforeFirst(BeforeFirst(name, '.'), '-'))
    ensures NormaliseName(name).Some? ==> Normalised(NormaliseName(name).value)
    ensures NormaliseName(name).Some? ==> |NormaliseName(name).value| <= |name|
  {
    if NormaliseName(name).Some? {
      var stem := BeforeFirst(name, '.');
      BeforeFirstIsPrefix(name, '.');
      var base := BeforeFirst(stem, '-');
      BeforeFirstIsPrefix(stem, '-');
      assert '.' !in base;
      LowerIsLower(base);
      LowerKeepsNonLetters(base, '.');
      LowerKeepsNonLetters(base, '-');
    }
  }

  /** Normalising a normalised name that is not skipped gives it back. */
  lemma NormaliseNameIdempotent(name: string)
    requires NormaliseName(name).Some? && NormaliseName(name).value != ""
    ensures NormaliseName(NormaliseName(name).value) == NormaliseName(name)
  {
    var n := NormaliseName(name).value;
    NormaliseNameShape(name);
    var base := BeforeFirst(BeforeFirst(name, '.'), '-');
    BeforeFirstIsPrefix(name, '.');
    BeforeFirstIsPrefix(BeforeFirst(name, '.'), '-');
    assert base[0] == name[0];
    assert n[0] == LowerChar(name[0]) != '_';
    SplitWithoutSeparator(n, '.');
    SplitWithoutSeparator(n, '-');
    LowerIsLower(base);
  }

  /** One pass of either inner loop: the name's module is appended unless skipped or already listed. */
  function AddName(available: seq<string>, name: string): seq<string>
  {
    match NormaliseName(name)
    case None => available
    case Some(n) => if n !in Skip && n !in available then available + [n] else available
  }

  /** `available` after the inner loops have gone through `names`, in order. */
  function Collect(available: seq<string>, names: seq<string>): seq<string>
  {
    if names == [] then available
    else AddName(Collect(available, names[..|names| - 1]), names[|names| - 1])
  }

  lemma {:induction false} CollectAppend(available: seq<string>, a: seq<string>, b: seq<string>)
    ensures Collect(available, a + b) == Collect(Collect(available, a), b)
    decreases |b|
  {
    if b == [] {
      assert a + b == a;
    } else {
      CollectAppend(available, a, b[..|b| - 1]);
      assert (a + b)[..|a + b| - 1] == a + b[..|b| - 1];
    }
  }

  /** A list of module names as `available_modules` keeps it: no repeats, nothing from `Skip`, all normalised. */
  predicate Catalogue(available: seq<string>)
  {
    && (forall i, j :: 0 <= i < j < |available| ==> available[i] != available[j])
    && (forall i :: 0 <= i < |available| ==> available[i] !in Skip && Normalised(available[i]))
  }

  /** Collecting keeps a catalogue a catalogue and only appends to it. */
  lemma {:induction false} CollectKeepsCatalogue(available: seq<string>, names: seq<string>)
    requires Catalogue(available)
    ensures Catalogue(Collect(available, names))
    ensures available <= Collect(available, names)
    decreases |names|
  {
    if names != [] {
      var front := Collect(available, names[..|names| - 1]);
      CollectKeepsCatalogue(available, names[..|names| - 1]);
      NormaliseNameShape(names[|names| - 1]);
    }
  }

  /** A module is collected exactly when it was listed before or some name stands for it and it is not skipped. */
  lemma {:induction false} CollectMembers(available: seq<string>, names: seq<string>, x: string)
    ensures x in Collect(available, names) <==>
      x in available || (x !in Skip && exists i :: 0 <= i < |names| && NormaliseName(names[i]) == Some(x))
    decreases |names|
  {
    if names != [] {
      var front := names[..|names| - 1];
      CollectMembers(available, front, x);
      if exists i :: 0 <= i < |names| && NormaliseName(names[i]) == Some(x) {
        var i :| 0 <= i < |names| && NormaliseName(names[i]) == Some(x);
        if i < |front| {
          assert NormaliseName(front[i]) == Some(x);
        }
      }
      if exists i :: 0 <= i < |front| && NormaliseName(front[i]) == Some(x) {
        var i :| 0 <= i < |front| && NormaliseName(front[i]) == Some(x);
        assert NormaliseName(names[i]) == Some(x);
      }
    }
  }

  /** One `(root, dirs, files)` triple of `os.walk`. */
  datatype WalkStep = WalkStep(dirs: seq<string>, files: seq<string>)

  /** The names the steps hand to the inner loops: each step's files, then its directories. */
  function StepNames(steps: seq<WalkStep>): seq<string>
  {
    if steps == [] then []
    else StepNames(steps[..|steps| - 1]) + steps[|steps| - 1].files + steps[|steps| - 1].dirs
  }

  /** The names of the walks of all roots, root by root; `walk(root)` is `os.walk(root, topdown=False)`. */
  function WalkNames(roots: seq<string>, walk: string -> seq<WalkStep>): seq<string>
  {
    if roots == [] then []
    else WalkNames(roots[..|roots| - 1], walk) + StepNames(walk(roots[|roots| - 1]))
  }

  /** `for name in files:` (or `dirs`) with its `continue` and its membership tests. */
  method AddNames(available: seq<string>, names: seq<string>) returns (result: seq<string>)
    ensures result == Collect(available, names)
  {
    result := available;
    for i := 0 to |names|
      invariant result == Collect(available, names[..i])
    {
      assert names[..i + 1][..i] == names[..i];
      var name := names[i];
      if name == "" || name[0] == '_' {
        continue;
      }
      var parts := Split(name, '.');
      if |parts| > 1 {
        name := parts[0];
      }
      parts := Split(name, '-');
      if |parts| > 1 {
        name := parts[0];
      }
      name := Lower(name);
      if name !in Skip && name !in result {
        result := result + [name];
      }
    }
    assert names[..|names|] == names;
  }

  /** The nested loops over the library roots and their walks. */
  method AvailableModules(roots: seq<string>, walk: string -> seq<WalkStep>) returns (available: seq<string>)
    ensures available == Collect([], WalkNames(roots, walk))
  {
    available := [];
    for i := 0 to |roots|
      invariant available == Collect([], WalkNames(roots[..i], walk))
    {
      assert roots[..i + 1][..i] == roots[..i];
      var steps := walk(roots[i]);
      ghost var before := available;
      for j := 0 to |steps|
        invariant available == Collect(before, StepNames(steps[..j]))
      {
        assert steps[..j + 1][..j] == steps[..j];
        var step := steps[j];
        ghost var names := StepNames(steps[..j]);
        available := AddNames(available, step.files);
        CollectAppend(before, names, step.files);
        available := AddNames(available, step.dirs);
        CollectAppend(before, names + step.files, step.dirs);
      }
      assert steps[..|steps|] == steps;
      CollectAppend([], WalkNames(roots[..i], walk), StepNames(steps));
    }
    assert roots[..|roots|] == roots;
  }

  /**
   * `available_modules` lists every module some walked name stands for and that
   * is not skipped, once each, and nothing else.
   */
  lemma AvailableModulesMeaning(roots: seq<string>, walk: string -> seq<WalkStep>, x: string)
    ensures Catalogue(Collect([], WalkNames(roots, walk)))
    ensures var names := WalkNames(roots, walk);
      x in Collect([], names) <==> x !in Skip && exists i :: 0 <= i < |names| && NormaliseName(names[i]) == Some(x)
  {
    CollectKeepsCatalogue([], WalkNames(roots, walk));
    CollectMembers([], WalkNames(roots, walk), x);
  }

  // ---------------------------------------------------------------------------
  // Dependencies and the summary
  // ---------------------------------------------------------------------------

  /** `missing_dependencies`: the dependencies whose lower-cased name is not available, in order. */
  function Missing(deps: seq<Dependency>, available: seq<string>): seq<Dependency>
  {
    if deps == [] then []
    else
      var front := Missing(deps[..|deps| - 1], available);
      var last := deps[|deps| - 1];
      if Lower(last.name) in available then front else front + [last]
  }

  /** The line the dependency loop writes for one dependency. */
  function DependencyLine(d: Dependency, available: seq<string>): string
  {
    d.name + (if Lower(d.name) in available then "...OK\n" else "...BAD\n")
  }

  function DependencyLines(deps: seq<Dependency>, available: seq<string>): string
  {
    Concat(seq(|deps|, i requires 0 <= i < |deps| => DependencyLine(deps[i], available)))
  }

  /** A dependency is missing exactly when it is listed and its lower-cased name is not available. */
  lemma {:induction false} MissingMeaning(deps: seq<Dependency>, available: seq<string>)
    ensures forall d :: d in Missing(deps, available) <==> d in deps && Lower(d.name) !in available
    ensures |Missing(deps, available)| <= |deps|
    ensures Missing(deps, available) == [] <==> forall i :: 0 <= i < |deps| ==> Lower(deps[i].name) in available
    decreases |deps|
  {
    if deps != [] {
      var front := deps[..|deps| - 1];
      MissingMeaning(front, available);
      assert deps == front + [deps[|deps| - 1]];
      if Missing(deps, available) == [] {
        forall i | 0 <= i < |deps| ensures Lower(deps[i].name) in available {
          assert deps[i] in deps;
        }
      }
    }
  }

  /** The missing dependencies of two runs of dependencies, one after the other, keep their order. */
  lemma {:induction false} MissingAppend(a: seq<Dependency>, b: seq<Dependency>, available: seq<string>)
    ensures Missing(a + b, available) == Missing(a, available) + Missing(b, available)
    decreases |b|
  {
    if b == [] {
      assert a + b == a;
    } else {
      MissingAppend(a, b[..|b| - 1], available);
      assert (a + b)[..|a + b| - 1] == a + b[..|b| - 1];
    }
  }

  lemma DependencyLinesSnoc(deps: seq<Dependency>, available: seq<string>, i: nat)
    requires i < |deps|
    ensures DependencyLines(deps[..i + 1], available)
         == DependencyLines(deps[..i], available) + DependencyLine(deps[i], available)
  {
    var front := seq(i, k requires 0 <= k < i => DependencyLine(deps[k], available));
    assert seq(i + 1, k requires 0 <= k < i + 1 => DependencyLine(deps[..i + 1][k], available))
        == front + [DependencyLine(deps[i], available)];
    assert seq(i, k requires 0 <= k < i => DependencyLine(deps[..i][k], available)) == front;
    ConcatAppend(front, [DependencyLine(deps[i], available)]);
  }

  /** The `for dependency in dependencies` loop. */
  method CheckDependencies(deps: seq<Dependency>, available: seq<string>)
    returns (missing: seq<Dependency>, out: string)
    ensures missing == Missing(deps, available)
    ensures out == "checking dependencies...\n" + DependencyLines(deps, available)
  {
    missing := [];
    out := "checking dependencies...\n";
    for i := 0 to |deps|
      invariant missing == Missing(deps[..i], available)
      invariant out == "checking dependencies...\n" + DependencyLines(deps[..i], available)
    {
      assert deps[..i + 1][..i] == deps[..i];
      DependencyLinesSnoc(deps, available, i);
      var dependency := deps[i];
      if Lower(dependency.name) in available {
        out := out + dependency.name + "...OK\n";
      } else {
        out := out + dependency.name + "...BAD\n";
        missing := missing + [dependency];
      }
    }
    assert deps[..|deps|] == deps;
  }

  // ---------------------------------------------------------------------------
  // The offer to install what is missing
  // ---------------------------------------------------------------------------

  /** The position of the first entry equal to `d`. */
  function FirstIndex(xs: seq<Dependency>, d: Dependency): (k: nat)
    requires d in xs
    ensures k < |xs| && xs[k] == d && d !in xs[..k]
  {
    if xs[0] == d then 0
    else
      assert xs == [xs[0]] + xs[1..];
      var k := FirstIndex(xs[1..], d);
      assert xs[..k + 1] == [xs[0]] + xs[1..][..k];
      k + 1
  }

  /**
   * `list.remove(d)`: the list without its first entry equal to `d`. Python
   * raises `ValueError` when there is none; the one caller removes an entry it
   * has just read from the list.
   */
  function RemoveFirst(xs: seq<Dependency>, d: Dependency): (r: seq<Dependency>)
    requires d in xs
    ensures var k := FirstIndex(xs, d); r == xs[..k] + xs[k + 1..]
    ensures forall e :: e in r ==> e in xs
    ensures forall e :: e != d ==> (e in r <==> e in xs)
  {
    if xs[0] == d then
      assert xs == [d] + xs[1..];
      xs[1..]
    else
      assert xs == [xs[0]] + xs[1..];
      var rest := RemoveFirst(xs[1..], d);
      KeepHeadRemoved(xs, FirstIndex(xs[1..], d), rest);
      [xs[0]] + rest
  }

  /** Keeping the head in front of the tail with its `k`-th entry removed removes entry `k + 1`. */
  lemma KeepHeadRemoved(xs: seq<Dependency>, k: nat, rest: seq<Dependency>)
    requires k + 1 < |xs|
    requires rest == xs[1..][..k] + xs[1..][k + 1..]
    ensures [xs[0]] + rest == xs[..k + 1] + xs[k + 2..]
  {
    assert xs[..k + 1] == [xs[0]] + xs[1..][..k];
    assert xs[k + 2..] == xs[1..][k + 1..];
  }

  /** Removing `d` from a list whose first occurrence of `d` follows `a` keeps `a` and what comes after. */
  lemma RemoveFirstAfter(a: seq<Dependency>, d: Dependency, b: seq<Dependency>)
    requires d !in a
    ensures RemoveFirst(a + [d] + b, d) == a + b
  {
    var xs := a + [d] + b;
    assert xs[|a|] == d && xs[..|a|] == a;
    var k := FirstIndex(xs, d);
    assert k == |a|;
    assert xs[k + 1..] == b;
  }

  /**
   * The install loop as written: Python steps an index through the list it is
   * removing from, so after a successful install the entry that slides into the
   * freed place is passed over. `installs(d)` says whether pip succeeds for `d`.
   * The pair is the list left at the end and the dependencies attempted, in order.
   */
  function InstallPassAsWritten(list: seq<Dependency>, i: nat, installs: Dependency -> bool)
    : (r: (seq<Dependency>, seq<Dependency>))
    ensures |r.1| <= |list| - i || i > |list|
    ensures forall e :: e in r.0 ==> e in list
    ensures forall e :: e in r.1 ==> e in list
    ensures forall e :: e in list && !installs(e) ==> e in r.0
    ensures i <= |list| && (forall e :: e in list ==> !installs(e)) ==> r == (list, list[i..])
    decreases |list| - i
  {
    if i >= |list| then
      assert i == |list| ==> list[i..] == [];
      (list, [])
    else
      var d := list[i];
      assert list[i..] == [d] + list[i + 1..];
      if installs(d) then
        var rest := InstallPassAsWritten(RemoveFirst(list, d), i + 1, installs);
        (rest.0, [d] + rest.1)
      else
        var rest := InstallPassAsWritten(list, i + 1, installs);
        (rest.0, [d] + rest.1)
  }

  /**
   * Two missing dependencies whose first installs: the second is never
   * attempted and stays listed as missing.
   */
  lemma InstallSkipsAfterRemoval(a: Dependency, b: Dependency, installs: Dependency -> bool)
    requires installs(a)
    ensures InstallPassAsWritten([a, b], 0, installs) == ([b], [a])
  {
    assert [a, b][0] == a && [a, b][1..] == [b];
    assert RemoveFirst([a, b], a) == [b];
    var rest := InstallPassAsWritten([b], 1, installs);
    assert rest == ([b], []);
    assert InstallPassAsWritten([a, b], 0, installs) == (rest.0, [a] + rest.1);
    assert [a] + rest.1 == [a];
  }

  /** The dependencies pip fails on, in order: what should be left after trying each one. */
  function FailedInstalls(missing: seq<Dependency>, installs: Dependency -> bool): seq<Dependency>
  {
    if missing == [] then []
    else
      var front := FailedInstalls(missing[..|missing| - 1], installs);
      var last := missing[|missing| - 1];
      if installs(last) then front else front + [last]
  }

  /** The failed installs are exactly the listed dependencies pip fails on. */
  lemma {:induction false} FailedInstallsMeaning(missing: seq<Dependency>, installs: Dependency -> bool)
    ensures forall d :: d in FailedInstalls(missing, installs) <==> d in missing && !installs(d)
    decreases |missing|
  {
    if missing != [] {
      var front := missing[..|missing| - 1];
      FailedInstallsMeaning(front, installs);
      assert missing == front + [missing[|missing| - 1]];
    }
  }

  /** One pass of the intended loop: the entry just attempted leaves the list exactly when pip succeeds on it. */
  lemma InstallStep(missing: seq<Dependency>, i: nat, installs: Dependency -> bool)
    requires i < |missing|
    ensures var done := FailedInstalls(missing[..i], installs);
      var next := FailedInstalls(missing[..i + 1], installs) + missing[i + 1..];
      && (installs(missing[i]) ==> RemoveFirst(done + missing[i..], missing[i]) == next)
      && (!installs(missing[i]) ==> done + missing[i..] == next)
  {
    var d := missing[i];
    var done := FailedInstalls(missing[..i], installs);
    assert missing[..i + 1][..i] == missing[..i];
    assert missing[i..] == [d] + missing[i + 1..];
    if installs(d) {
      FailedInstallsMeaning(missing[..i], installs);
      RemoveFirstAfter(done, d, missing[i + 1..]);
      assert done + missing[i..] == done + [d] + missing[i + 1..];
    }
  }

  /**
   * The install loop as evidently intended, walking a snapshot of the list so
   * that removals do not shift it: every missing dependency is attempted once,
   * and exactly those pip fails on are left.
   */
  method InstallMissing(missing: seq<Dependency>, installs: Dependency -> bool)
    returns (remaining: seq<Dependency>, attempted: seq<Dependency>)
    ensures attempted == missing
    ensures remaining == FailedInstalls(missing, installs)
  {
    remaining, attempted := missing, [];
    for i := 0 to |missing|
      invariant attempted == missing[..i]
      invariant remaining == FailedInstalls(missing[..i], installs) + missing[i..]
    {
      var dependency := missing[i];
      InstallStep(missing, i, installs);
      attempted := attempted + [dependency];
      if installs(dependency) {
        remaining := RemoveFirst(remaining, dependency);
      }
    }
    assert missing[..|missing|] == missing;
  }

  /**
   * Lines 130-149 given the dependencies missing, the answer typed at the
   * prompt, whether a virtualenv is active and the pip oracle: nothing to do
   * when none is missing; an empty answer makes `lower()[0]` raise; an answer
   * starting with 'y' or 'Y' outside a virtualenv runs the install loop as
   * written; anything else keeps the list.
   */
  function InstallPhase(missing: seq<Dependency>, answer: string, inVirtualenv: bool,
                        installs: Dependency -> bool): Result<seq<Dependency>, Failure>
  {
    if |missing| == 0 then Ok(missing)
    else
      var tryInstall := Lower(answer);
      if tryInstall == [] then Err(Raised("IndexError"))
      else if tryInstall[0] == 'y' && !inVirtualenv then Ok(InstallPassAsWritten(missing, 0, installs).0)
      else Ok(missing)
  }

  /**
   * The offer fails only on an empty answer with something missing; otherwise
   * what is left was missing, every dependency pip fails on is still there, the
   * list is kept whole when pip succeeds on none, and it changes only after a
   * 'y' answer outside a virtualenv.
   */
  lemma InstallPhaseMeaning(missing: seq<Dependency>, answer: string, inVirtualenv: bool,
                            installs: Dependency -> bool)
    ensures InstallPhase(missing, answer, inVirtualenv, installs).Err? <==> |missing| > 0 && answer == []
    ensures var r := InstallPhase(missing, answer, inVirtualenv, installs);
      r.Ok? ==> forall d :: d in r.value ==> d in missing
    ensures var r := InstallPhase(missing, answer, inVirtualenv, installs);
      r.Ok? ==> forall d :: d in missing && !installs(d) ==> d in r.value
    ensures var r := InstallPhase(missing, answer, inVirtualenv, installs);
      r.Ok? && (forall d :: d in missing ==> !installs(d)) ==> r.value == missing
    ensures var r := InstallPhase(missing, answer, inVirtualenv, installs);
      r.Ok? && r.value != missing ==> |answer| > 0 && LowerChar(answer[0]) == 'y' && !inVirtualenv
  {
  }

  /** The listing line of one missing dependency. */
  function ListingLine(d: Dependency): string
  {
    "    -" + Requirement(d) + "\n"
  }

  function Listing(missing: seq<Dependency>): string
  {
    Concat(seq(|missing|, i requires 0 <= i < |missing| => ListingLine(missing[i])))
  }

  lemma ListingSnoc(missing: seq<Dependency>, i: nat)
    requires i < |missing|
    ensures Listing(missing[..i + 1]) == Listing(missing[..i]) + ListingLine(missing[i])
  {
    var front := seq(i, k requires 0 <= k < i => ListingLine(missing[k]));
    assert seq(i + 1, k requires 0 <= k < i + 1 => ListingLine(missing[..i + 1][k])) == front + [ListingLine(missing[i])];
    assert seq(i, k requires 0 <= k < i => ListingLine(missing[..i][k])) == front;
    ConcatAppend(front, [ListingLine(missing[i])]);
  }

  /** Every missing dependency has its line in the listing, showing its requirement. */
  lemma ListingShowsEach(missing: seq<Dependency>, i: nat)
    requires i < |missing|
    ensures Contains(Listing(missing), "    -" + Requirement(missing[i]) + "\n")
  {
    ConcatContains(seq(|missing|, k requires 0 <= k < |missing| => ListingLine(missing[k])), i);
  }

  /** The author block that opens the summary. */
  function Credits(): string
  {
    "\n\nAuthor: " + Author + "\nEmail: " + Email + "\nLast Updated: " + LastUpdated + "\n"
  }

  /** The `for module in missing_dependencies` loop of the summary. */
  method ListMissing(missing: seq<Dependency>) returns (lines: string)
    ensures lines == Listing(missing)
  {
    lines := "";
    for i := 0 to |missing|
      invariant lines == Listing(missing[..i])
    {
      ListingSnoc(missing, i);
      var dependency := missing[i];
      lines := lines + ("    -" + Requirement(dependency) + "\n");
    }
    assert missing[..|missing|] == missing;
  }

  /** The summary of lines 153-167, given the dependencies still missing. */
  method FinalReport(missing: seq<Dependency>) returns (out: string, success: bool)
    ensures success <==> missing == []
    ensures out == Credits()
      + (if missing == [] then "" else "missing " + DecimalString(|missing|) + " dependencies:\n" + Listing(missing))
      + (if success then "\nsuccessfully setup project environment\n" else "")
      + "\nfinished\n"
  {
    success := true;
    out := Credits();
    if |missing| > 0 {
      success := false;
      var lines := ListMissing(missing);
      out := out + ("missing " + DecimalString(|missing|) + " dependencies:\n" + lines);
    }
    if success {
      out := out + "\nsuccessfully setup project environment\n";
    }
    out := out + "\nfinished\n";
  }
}
