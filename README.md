# Python 3 project template, modelled in Dafny

The repository is a small Python 3 project template. It has five parts:

- `inject` (`injection/__init__.py`) is a decorator factory. On every call of the decorated function it imports a module, optionally takes one attribute of it, and passes the result as one extra trailing positional argument.
- `Console` (`logger/__init__.py`) is a logger.
  - Booting it makes sure an info log and an error log exist.
  - `log` appends one timestamped, caller-tagged line to one of the two logs, and can echo it to stdout or stderr.
  - `clear_logs` deletes both logs and boots again.
- `definitions.py` holds the project's resource paths and a case-insensitive lookup over them.
- `quick_setup.py` checks the project layout, reads `dependencies.txt` into (name, version) pairs, and runs pip once per pair.
- `setup.py` does the following in order:
  - checks the internal packages and modules, with exit codes 2 to 7;
  - finds the library roots on `sys.path`;
  - collects the module names installed under them;
  - reports the dependencies that are missing, and offers to install them;
  - prints a summary.

The model replaces the environment with values:

- The file system is a `Files.FileSystem`: a map from file path to text, plus a set of directories.
- The import machinery is an `Injection.Resolver`: a map from module name to a value with attributes.
- The clock becomes the formatted timestamp `ts`.
- `inspect.stack()` becomes an optional `Caller`.
- `sys.path`, `os.walk`, the answer typed at the prompt, whether a virtualenv is active, and pip's success per dependency are all parameters.
- `sys.exit(code)` becomes a returned `Scripts.Failure`, as does an exception that escapes a script.

Module by module:

| file | module | form |
|---|---|---|
| `injection/__init__.py` | `Injection` (injection.dfy) | Functions over closures. `Stack` composes decorators, and lemmas state the call protocol. |
| `logger/__init__.py` | `Logger` (logger.dfy) | `class Console`. It has the fields `verbose`, `infoLog`, `errLog`, `fs`, `stdout` and `stderr`. Its methods change these fields and are each tied to a specification function (`BootState`, `BootNotes`, `ClearState`, `LogLine`, ...). |
| `definitions.py` | `Definitions` (definitions.dfy) | Pure functions. |
| `quick_setup.py` | `QuickSetup` (quick_setup.dfy) | Loop methods (`CheckProjectStructure`, `ParseDependencies`, `Run`), each proved equal to a specification function. |
| `setup.py` | `Setup` (setup.dfy) | One loop method per top-level loop, each proved against a specification function, except the install loop of lines 140-147: as written it is the recursive function `InstallPassAsWritten`, and the loop method `InstallMissing` is the corrected loop. Lemmas state what those functions mean. |

Four support modules:

- `Text` models the Python `str` operations the sources use: `split`, `join`, `strip`, `lower`, `str(n)`, substring `in`, and `readline` line splitting.
- `Files` models `posixpath.join`, `dirname`, and the `exists`/`isdir`/`isfile`/`open`/`remove` calls.
- `Scan` holds "first entry that fails" and "all entries map".
- `Scripts` holds what both setup scripts share: `Dependency`, the pip requirement, `Failure`, and the "name...OK" lines.

Points where the code behaves differently from what its names, comments and docstrings suggest. The model follows the code:

- **Decorator order.** Stacked `inject` decorators hand their values over outermost first (`Injection.StackedOrder`). `Console` relies on this: it receives `definitions` first and `os` last. The docstring example at `injection/__init__.py:42-44` names its parameters the other way round.
- **The logger raises.** Every file operation of `Console` sits in a `try` block, yet failures still escape:
  - `__sys_err__` is handed the exception object itself. With `critical=True` it concatenates a string and that object, which raises `TypeError` and writes nothing.
  - So a failed `open` in `__boot__` ends in the `finally` clause closing an unbound `tmp_file`, and `UnboundLocalError` escapes.
  - A failed removal in `clear_logs` lets `TypeError` escape.
  - A failed append in `log` raises `TypeError` in its handler (`"..." + e`), after the echo has already happened.
  - "failed to boot" is never printed: each failed creation raises before that line is reached.
- **Echo stream.** `log` echoes to stdout whenever `is_err` is false, even for a critical message (`logger/__init__.py:88-99`).
- **Package check strictness.** The package check of `quick_setup.py` accepts anything named `__init__.py`, including a directory. The check of `setup.py` demands a regular file (`Setup.PackageStatusMeaning`).
- **Library roots on POSIX.** `setup.py` finds library roots by splitting paths on `'\\'`. On POSIX paths, which contain no backslash, only a path that is exactly `lib` or `site-packages` qualifies (`Setup.PathWithoutBackslash`).

## Model

| member | source | states |
|---|---|---|
| Definitions.LogPathsLayout | definitions.py:5-8 | `LOG` lies under the root. `ERR_LOG` and `INFO_LOG` are `LOG` followed by their file names. They are two different files, and both have the directory `root/logs`. |
| Definitions.GetResourceIgnoresCase | definitions.py:15 | A name and its lower-case form find the same resource. |
| Definitions.GetResourceTable | definitions.py:11-26 | `None` fails. `root`, `log`, `error log` and `info log` (in any case) give the four paths. A lookup succeeds exactly for those four names. Any other name fails with a message that contains the lower-cased name. |
| Files.AppendAddsAtEnd | logger/__init__.py:93-100 | `open(p, "a+").write(data)` succeeds exactly when `p` is no directory and its directory exists. The file then holds its old text (empty if new) followed by `data`, and no other path changes. |
| Files.OperationsKeepConsistency | logger/__init__.py:41-107 | Creating, appending to and removing a file keep every file's directory in place. |
| Files.RemoveThenCreate | logger/__init__.py:104-109 | Removing an existing file and creating it again leaves it empty and changes nothing else. |
| Injection.InjectChecksModuleEagerly | injection/__init__.py:49-50 | `inject` fails, with `InjectionKeyError`, exactly when no module is given. Otherwise it captures the module and the attribute. |
| Injection.ResolveMeaning | injection/__init__.py:54-58 | Resolution succeeds exactly when the module imports and, if an attribute is named, the module has it. The value is the top-level module, or that attribute of it. |
| Injection.ImportUndotted | injection/__init__.py:56 | `__import__` of an undotted, importable name returns that module. |
| Injection.WrappedCallAppendsOne | injection/__init__.py:53-63 | After a successful resolution, `f` gets the caller's positional arguments plus exactly the resolved value, and the same keyword arguments. Its outcome is returned unchanged. |
| Injection.FailedResolutionSkipsCall | injection/__init__.py:55-62 | A failed resolution raises its error, and the outcome is the same whatever the wrapped function is, so that function never runs. |
| Injection.ImportFailureNamesBoth | injection/__init__.py:60 | The rewrapped import message contains both the module name and the attribute. |
| Injection.ImportErrorNamesBoth | injection/__init__.py:59-60 | A failed import raises `ImportError` whose message names both the module and the attribute. |
| Injection.MissingAttributeEscapes | injection/__init__.py:57-59 | A missing attribute is not caught: `AttributeError` escapes, not `ImportError`. |
| Injection.ResolvedAtCallTime | injection/__init__.py:53-58 | The same wrapped function, called after a module has been replaced, receives the replacement. |
| Injection.StackedOrder | injection/__init__.py:62 | Stacked decorators append their values outermost first, after the caller's arguments. |
| Injection.StackedModules | injection/__init__.py:52-65 | Stacked `inject(name)` decorators on undotted names pass those modules, top decorator first. |
| Injection.StackedFailure | injection/__init__.py:55-62 | In a stack, the outermost failing decorator decides the exception, and the function is never called. |
| Logger.ConsoleReceivesModulesInOrder | logger/__init__.py:4-12 | `Console` is called with `definitions, datetime, inspect, sys, os` after the caller's arguments, the order of the parameters of `__init__`. |
| Logger.BootCreatesMissingLogs | logger/__init__.py:37-61 | After a successful boot both logs exist. A log that was missing is empty, every existing file keeps its text, no directory changes, and no other file appears. |
| Logger.BootOkWhen | logger/__init__.py:40-58 | On a consistent file system, boot succeeds exactly when each log exists or its directory does. |
| Logger.BootIdempotent | logger/__init__.py:33-69 | Booting a booted file system succeeds and changes nothing. |
| Logger.ClearLeavesEmptyLogs | logger/__init__.py:104-109 | When both logs are files, clearing succeeds and leaves both logs empty, with nothing else changed. |
| Logger.CallerTagNamesBaseName | logger/__init__.py:76-82 | The tag names the caller file's last '/'-component (a suffix with no '/'), then the function, or "module" for `<module>`. |
| Logger.LogLineHoldsMessage | logger/__init__.py:86 | The log line starts with the stamp, ends with the message and one newline, and contains the message. |
| Logger.Console.Init | logger/__init__.py:12-18 | The fields are set from the arguments, and the paths come from `definitions`. |
| Logger.Console.New | logger/__init__.py:12-19 | Construction boots. No exception escapes exactly when boot succeeds, and then both logs exist. The new file system and stdout are those of the boot, and stderr is unchanged. |
| Logger.Console.SysPrint | logger/__init__.py:21-24 | Writes the note to stdout exactly when verbose. |
| Logger.Console.SysErr | logger/__init__.py:26-31 | Writes to stderr exactly when verbose or critical and the message is text. Handed an exception object when verbose or critical, it raises `TypeError` and writes nothing; otherwise it does nothing. |
| Logger.Console.WriteErr | logger/__init__.py:29-31 | Writes a text note to stderr. An exception object raises `TypeError` instead. |
| Logger.Console.EnsureLog | logger/__init__.py:37-48 | Creates a missing log empty. A failed creation lets `UnboundLocalError("tmp_file")` escape and leaves the files unchanged. The verbose notes are stated exactly. |
| Logger.Console.Boot | logger/__init__.py:33-69 | Info log first, then error log. Success is `BootOk`, the new file system is `BootState`, and stdout gains `BootNotes` when verbose. stderr is unchanged. |
| Logger.Console.Log | logger/__init__.py:71-102 | Appends exactly the log line to the error log if `isErr`, else to the info log. The line is echoed to stderr or stdout exactly when verbose or critical. A failed caller lookup adds a stderr note only when verbose. A failed append raises `TypeError` and leaves the files unchanged. |
| Logger.Console.ClearLogs | logger/__init__.py:104-111 | Removes the info log, then the error log, then reboots. It stops at the first failure with `TypeError` and stderr unchanged. The new state is `ClearState`. |
| Logger.Console.Reboot | logger/__init__.py:108-111 | The reboot tail of `clear_logs`. A failed boot ends in `TypeError` from the handler. |
| Logger.ClearThenLog | logger/__init__.py:71-111 | `clear_logs` then `log(msg)` leaves the info log holding exactly that one line, and the error log empty. |
| QuickSetup.StructureVerdict | quick_setup.py:6-27 | The check succeeds exactly when every directory, package and module passes. Otherwise it exits with 2 for a bad directory, else a bad package fails as `PackageFailureAsWritten` (exit 3 naming the last directory, or `UnboundLocalError` with no directories), else it exits with 4 for a bad module. Success writes "project...OK". |
| QuickSetup.DirFailureVerdict | quick_setup.py:9-13 | The first bad directory exits with 2 and is named. |
| QuickSetup.PackageFailureVerdict | quick_setup.py:9-19 | With all directories good, any bad package ends the check with the failure the script formats from the leftover `dir`, whichever package it is. |
| QuickSetup.ModuleFailureVerdict | quick_setup.py:21-25 | With directories and packages good, the first bad module exits with 4 and is named. |
| QuickSetup.CheckProjectStructure | quick_setup.py:6-27 | The three early-exit loops, with the directory loop's target kept bound after the loop, give exactly `StructureVerdict`. |
| QuickSetup.PackageFailureAsWrittenNamesDir | quick_setup.py:9-18 | With no directories the package failure is `UnboundLocalError`. The failure equals the intended exit 3 naming the package exactly when there are directories and the package bears the name of the last one. |
| QuickSetup.ScriptReportsDirForPackage | quick_setup.py:17-18 | With the script's lists, a bad `injection` package exits with 3 and "package: logs is invalid!", not a message naming `injection`. |
| QuickSetup.PackageMessageNamesPackage | quick_setup.py:18 | The corrected message contains the failing package. |
| QuickSetup.UncommentedIsBeforeFirst | quick_setup.py:40-41 | Dropping the comment keeps exactly the prefix before the first '#'. |
| QuickSetup.ParseLineFailsWithoutColon | quick_setup.py:40-44 | A line fails (`IndexError`) exactly when no ':' precedes its comment. Blank lines and comment-only lines fail. |
| QuickSetup.ParseLineRoundTrip | quick_setup.py:40-44 | A line `name:version`, followed by white space and an optional comment, parses back to that dependency. |
| QuickSetup.ParseLineIgnoresExtraFields | quick_setup.py:43-44 | Fields after the second are ignored. |
| Text.LinesRoundTrip | quick_setup.py:37-46 | The lines `readline` returns put back together are the file's text, and none is empty, so `while line:` stops exactly at the end of the file. |
| QuickSetup.ParseAll | quick_setup.py:37-48 | All lines parse exactly when each does. Then the result has one pair per line, in order. |
| QuickSetup.DependencyFileRoundTrip | quick_setup.py:36-48 | Reading back a file written from well-formed dependencies gives those dependencies. |
| QuickSetup.ParseVerdict | quick_setup.py:30-48 | Exit 1 exactly when the file is missing. Success means the file is a regular file and gives one pair per line, in order. |
| QuickSetup.ParseDependencies | quick_setup.py:30-48 | The `while line:` loop gives exactly `ParseVerdict`. |
| QuickSetup.PipCommand | quick_setup.py:51-56 | `python -m pip install` plus the name for version `-1`, otherwise plus the name and version. |
| QuickSetup.Run | quick_setup.py:76-83 | A structure failure, including the as-written package failure, stops the script before the file is read. Otherwise a parse failure stops it. The script finishes exactly when both pass, and then there is one pip command per parsed dependency, in file order. |
| Scripts.Requirement | quick_setup.py:53-56 | The requirement starts with the name. It is the name alone for version `-1`, and otherwise the rest is the version. |
| Setup.MinVersionString | setup.py:25-29 | The `+=` loop and the cut of the last character give the components joined by '.'. |
| Setup.VersionStringRoundTrip | setup.py:25-29 | The version string, split at its dots, gives one numeral per component, each reading back as that component, so there is no stray dot. |
| Setup.MinimumVersionShown | setup.py:13 | `(3, 6)` is shown as "3.6". |
| Setup.PackageStatusMeaning | setup.py:36-53 | Status 0 exactly when the package is a directory holding a regular `__init__.py`. 3 means it is a file, and 5 means `__init__.py` is a directory. It passes the `quick_setup.py` check exactly at 0 or 5. |
| Setup.ModuleStatusMeaning | setup.py:60-68 | Status 0 exactly when `<name>.py` is a file, 6 when it is missing, and 7 when it is a directory. |
| Setup.PackageChecks | setup.py:37-53 | The four checks of one package give its status, and its message when the status is not 0. |
| Setup.CheckPackages | setup.py:35-56 | The first failing package exits with its status and message, after "...OK" lines for the packages before it. If none fails, the output is all "...OK" lines and the closing line. |
| Setup.CheckModules | setup.py:59-71 | The same for modules, with exit codes 6 and 7. |
| Setup.LibRootsMeaning | setup.py:78-83 | The library roots are exactly the `sys.path` entries that are directories ending in `lib` or `site-packages`. |
| Setup.LibRootsOfAppend | setup.py:78-84 | The roots keep `sys.path` order. |
| Setup.PathWithoutBackslash | setup.py:80-82 | A path without '\\' is a root only when it is `lib` or `site-packages` itself. |
| Setup.LibRoots | setup.py:77-84 | The loop collects exactly the roots and writes one "...OK" line per root. |
| Setup.NormaliseNameShape | setup.py:92-103 | Empty names and names starting with '_' are skipped. Any other name becomes the lower-cased part before the first '.', then before the first '-'. The result is no longer than the name and has no capital, '.' or '-'. |
| Setup.NormaliseNameIdempotent | setup.py:92-103 | Normalising a normalised name gives it back. |
| Setup.CollectKeepsCatalogue | setup.py:104-105 | `available_modules` never gains a duplicate, a skipped name or an unnormalised name, and is only appended to. |
| Setup.CollectMembers | setup.py:89-120 | A module is collected exactly when it was listed before, or when some name stands for it and it is not skipped. |
| Setup.AddNames | setup.py:91-105 | One inner loop, with its `continue`, gives `Collect`. |
| Setup.AvailableModules | setup.py:89-120 | The nested loops over roots, walk steps, files and directories give `Collect` of all walked names. |
| Setup.AvailableModulesMeaning | setup.py:87-120 | `available_modules` lists, once each, exactly the modules some walked name stands for that are not skipped. |
| Setup.MissingMeaning | setup.py:123-128 | A dependency is missing exactly when its lower-cased name is not available. Nothing is missing exactly when every name is available. |
| Setup.MissingAppend | setup.py:123-128 | Missing dependencies keep their original order. |
| Setup.CheckDependencies | setup.py:122-128 | The loop gives exactly `Missing`, and one "...OK" or "...BAD" line per dependency. |
| Setup.RemoveFirst | setup.py:144 | `list.remove(d)` on a list holding `d` drops exactly the entry at the first position of `d` and keeps the others in order. Every other value stays present, and nothing new appears. |
| Setup.InstallPassAsWritten | setup.py:140-147 | The loop as Python runs it attempts at most one dependency per list position left, attempts and keeps only listed dependencies, keeps every dependency pip fails on, and changes nothing when pip succeeds on none. |
| Setup.InstallSkipsAfterRemoval | setup.py:140-147 | With two missing dependencies where pip succeeds on the first, the second is never attempted and stays missing. |
| Setup.FailedInstallsMeaning | setup.py:140-149 | The dependencies left are exactly the listed ones on which pip fails. |
| Setup.InstallMissing | setup.py:140-149 | The intended loop attempts every missing dependency once and leaves exactly those on which pip fails. |
| Setup.InstallPhaseMeaning | setup.py:130-149 | The offer, running the install loop as written, fails (`IndexError`) exactly for an empty answer when something is missing. Whatever is left was missing, every dependency pip fails on stays, nothing changes when pip succeeds on none, and the list changes only after a 'y' answer outside a virtualenv. |
| Setup.ListingShowsEach | setup.py:158-162 | Every missing dependency has its line "    -<requirement>" in the listing. |
| Setup.ListMissing | setup.py:158-162 | The listing loop writes one line per missing dependency, in order. |
| Setup.FinalReport | setup.py:153-167 | The success message appears exactly when nothing is missing. The output is the author block, the listing when something is missing, and "finished". |

## Left out

- I/O and the process. `subprocess.check_call` and pip's output are left out: the "...OK"/"...BAD" lines of `exec_pip`, and the error text written when an install fails. So are `time.sleep`, and the "quick setup finished" and blank-line headers between the script steps. pip's success is the oracle `installs`, and `input()` is the parameter `answer`.
- The Python version check of `setup.py` (lines 22-33) is left out: it compares `sys.version_info` and prints `sys.version`, which are environment reads. The version string it builds is modelled (`Setup.MinVersionString`).
- `in_virtualenv` is the parameter `inVirtualenv`; the virtualenv branch does nothing, as in the source.
- The "getting available modules...", "got N possible modules" and "missing N dependencies" lines, and the prompt text of the install offer, are not part of the modelled output.
- The top-level sequencing of `setup.py` is modelled step by step, one method per loop, not as one operation. `quick_setup.py` is modelled whole (`QuickSetup.Run`).
- `fetch_console` is left out: it passes `verbose` positionally, so the injected modules land in the wrong parameters; it is a misuse, not a contract.
- Setup.InstallPassAsWritten: its contract does not say which dependencies are skipped; the skip itself is stated on a concrete list by `Setup.InstallSkipsAfterRemoval`.
- `lower()` is modelled on ASCII letters only (`Text.Lower`); full Unicode case mapping is not.
- `os.path.dirname` is modelled as the text before the last '/', without collapsing repeated slashes; for a file directly under `/`, such as `/x`, the model gives "" where Python gives "/".
- `os.path.abspath(__file__)` is the parameter `root`.
- Each logger operation reads the clock once (`ts`). The model does not capture the clock advancing within one call.
- Import failures other than a module's absence, such as an import that raises while running, are not modelled, nor is the `ValueError` that `__import__("")` raises in place of `ImportError`.
- `readline` is modelled as splitting on '\n'; '\r' handling of text mode is not modelled.
- Logger.Console.New: when boot raises, Python creates no `Console` for the caller; the model still returns the object, with the exception beside it.
- Setup.ListMissing: the `if module[1] == '-1'` choice of the listing is expressed through `Scripts.Requirement`, which makes the same choice.
- Setup.InstallPhaseMeaning: the answer's first character is tested after ASCII lower-casing only.

## Findings

| source | as written | input that shows it | evidently intended | confidence | as-written member | corrected member |
|---|---|---|---|---|---|---|
| quick_setup.py:18 | The package error is formatted with `dir`, the variable left over from the directory loop, instead of `package`. | dirs `["logs"]`, with package `injection` missing: the message reads "package: logs is invalid!". | The message names the failing package. | not executed | QuickSetup.ScriptReportsDirForPackage | QuickSetup.PackageMessageNamesPackage |
| setup.py:140-147 | The install loop removes each installed dependency from the list it is iterating over. | Missing `[a, b]`, with pip succeeding on `a`: `b` is never attempted and is left missing. | Every missing dependency is attempted once, and exactly those on which pip fails are left. | not executed | Setup.InstallSkipsAfterRemoval | Setup.InstallMissing |
