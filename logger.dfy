/**
 * The `Console` logger: it makes sure the info and error log files exist, appends
 * one timestamped, caller-tagged line per `log` call to one of them, echoes that
 * line to stdout or stderr when asked to, and can clear both logs.
 *
 * The modules `Console` receives by injection become plain state: the two paths
 * from `definitions`, the file system behind `os` and `open`, the two streams of
 * `sys`. The clock (`datetime`) and the caller lookup (`inspect`) become the
 * parameters `ts` (the formatted UTC time) and `caller`.
 */
module Logger {
  import opened Results
  import opened Text
  import opened Files
  import Definitions
  import Injection

  /** The frame `inspect.stack()[1]` describes: the calling file and function. */
  datatype Caller = Caller(fileName: string, functionName: string)

  /** The exceptions that escape the logger's operations. */
  datatype Escape = TypeError(operand: string) | UnboundLocalError(name: string)

  /** What `__sys_err__` is handed: a text, or an exception object (known by its type name). */
  datatype Message = Plain(text: string) | Object(typeName: string)

  /** The class-level tag `__tag`. */
  const LoggerTag := "[ logger ]"

  /** `cur_time`: the bracketed timestamp. */
  function Stamp(ts: string): string
  {
    "[ " + ts + " ]"
  }

  /** The line `__sys_print__` and `__sys_err__` write. */
  function Note(ts: string, msg: string): string
  {
    Stamp(ts) + " " + LoggerTag + " " + msg + "\n"
  }

  /** The caller tag of `log`: file base name and function, or "" when the lookup failed. */
  function CallerTag(caller: Option<Caller>): string
  {
    if caller.None? then ""
    else
      var fileTag := "[ " + AfterLast(caller.value.fileName, '/') + " ] ";
      if caller.value.functionName != "<module>" then fileTag + "[ " + caller.value.functionName + " ] "
      else fileTag + "[ module ] "
  }

  /** The line `log` writes: timestamp, caller tag, message, newline. */
  function LogLine(ts: string, tag: string, msg: string): string
  {
    Stamp(ts) + " " + tag + msg + "\n"
  }

  /** The Python type name of a file-system error, as `str + e` reports it. */
  function TypeName(e: FsError): string
  {
    match e
    case NotFound(_) => "FileNotFoundError"
    case IsADirectory(_) => "IsADirectoryError"
  }

  /** One `if not exists: open(p, "w+")` block of `__boot__`. */
  function EnsureFile(fs: FileSystem, p: string): Result<FileSystem, FsError>
  {
    if fs.Exists(p) then Ok(fs) else fs.Create(p)
  }

  /** `__boot__` succeeds when both blocks do. */
  predicate BootOk(fs: FileSystem, info: string, err: string)
  {
    EnsureFile(fs, info).Ok? && EnsureFile(EnsureFile(fs, info).value, err).Ok?
  }

  /** The file system after `__boot__`, whether it succeeded or stopped at the first failure. */
  function BootState(fs: FileSystem, info: string, err: string): FileSystem
  {
    if EnsureFile(fs, info).Err? then fs
    else
      var fs1 := EnsureFile(fs, info).value;
      if EnsureFile(fs1, err).Err? then fs1 else EnsureFile(fs1, err).value
  }

  /** The verbose notes of one `EnsureFile` block. */
  function EnsureNotes(fs: FileSystem, p: string, kind: string, ts: string): string
  {
    if fs.Exists(p) then ""
    else
      Note(ts, "creating " + kind + " log...")
        + (if fs.Create(p).Ok? then Note(ts, kind + " log created") else "")
  }

  /** The verbose notes of `__boot__`. */
  function BootNotes(fs: FileSystem, info: string, err: string, ts: string): string
  {
    Note(ts, "booting logger...") + EnsureNotes(fs, info, "info", ts)
      + (if EnsureFile(fs, info).Err? then ""
         else
           var fs1 := EnsureFile(fs, info).value;
           EnsureNotes(fs1, err, "error", ts)
             + (if EnsureFile(fs1, err).Ok? then Note(ts, "successfully booted") else ""))
  }

  /** `clear_logs` succeeds when both removals and the reboot do. */
  predicate ClearOk(fs: FileSystem, info: string, err: string)
  {
    && fs.Remove(info).Ok?
    && fs.Remove(info).value.Remove(err).Ok?
    && BootOk(fs.Remove(info).value.Remove(err).value, info, err)
  }

  /** The file system after `clear_logs`, whether it succeeded or stopped at the first failure. */
  function ClearState(fs: FileSystem, info: string, err: string): FileSystem
  {
    if fs.Remove(info).Err? then fs
    else
      var fs1 := fs.Remove(info).value;
      if fs1.Remove(err).Err? then fs1 else BootState(fs1.Remove(err).value, info, err)
  }

  /** The verbose notes of `clear_logs`. */
  function ClearNotes(fs: FileSystem, info: string, err: string, ts: string): string
  {
    if fs.Remove(info).Err? || fs.Remove(info).value.Remove(err).Err? then ""
    else
      Note(ts, "logs cleared. rebooting console...")
        + BootNotes(fs.Remove(info).value.Remove(err).value, info, err, ts)
  }

  /**
   * After a successful boot both log files exist; a file that was missing is now
   * empty, every file that existed keeps its text, and no directory changes.
   */
  lemma BootCreatesMissingLogs(fs: FileSystem, info: string, err: string)
    requires info != err
    requires BootOk(fs, info, err)
    ensures var after := BootState(fs, info, err);
      && after.Exists(info) && after.Exists(err)
      && after.dirs == fs.dirs
      && (!fs.Exists(info) ==> after.files[info] == "")
      && (!fs.Exists(err) ==> after.files[err] == "")
      && (forall q :: q in fs.files ==> q in after.files && after.files[q] == fs.files[q])
      && (forall q :: q in after.files ==> q in fs.files || q == info || q == err)
  {
  }

  /**
   * Boot succeeds on a consistent file system exactly when each log file exists
   * or can be created, that is, is no directory and its directory exists.
   */
  lemma BootOkWhen(fs: FileSystem, info: string, err: string)
    requires fs.Consistent() && info != err
    ensures BootOk(fs, info, err) <==>
      && (fs.Exists(info) || Dirname(info) in fs.dirs)
      && (fs.Exists(err) || Dirname(err) in fs.dirs)
  {
    if EnsureFile(fs, info).Ok? {
      var fs1 := EnsureFile(fs, info).value;
      assert fs1.dirs == fs.dirs;
      assert fs1.Exists(err) <==> fs.Exists(err);
    }
  }

  /** Booting again changes nothing. */
  lemma BootIdempotent(fs: FileSystem, info: string, err: string)
    requires BootOk(fs, info, err)
    ensures BootOk(BootState(fs, info, err), info, err)
    ensures BootState(BootState(fs, info, err), info, err) == BootState(fs, info, err)
  {
    var fs1 := EnsureFile(fs, info).value;
    assert fs1.Exists(info);
    assert BootState(fs, info, err).Exists(info);
  }

  /**
   * On a consistent file system where both logs are files, `clear_logs` succeeds
   * and leaves both logs existing and empty, and nothing else changed.
   */
  lemma {:induction false} ClearLeavesEmptyLogs(fs: FileSystem, info: string, err: string)
    requires fs.Consistent() && info != err
    requires info in fs.files && err in fs.files
    ensures ClearOk(fs, info, err)
    ensures ClearState(fs, info, err) == fs.(files := fs.files[info := ""][err := ""])
  {
    var fs1 := fs.Remove(info).value;
    var fs2 := fs1.Remove(err).value;
    assert Dirname(info) in fs.dirs && Dirname(err) in fs.dirs;
    assert info !in fs2.files && info !in fs2.dirs;
    var fs3 := EnsureFile(fs2, info).value;
    assert fs3.files == fs2.files[info := ""];
    assert err !in fs3.files && err !in fs3.dirs;
    assert EnsureFile(fs3, err).value.files == fs.files[info := ""][err := ""];
  }

  /** The caller tag names the calling file's last path component, which holds no '/'. */
  lemma CallerTagNamesBaseName(c: Caller)
    ensures var base := AfterLast(c.fileName, '/');
      && |base| <= |c.fileName| && base == c.fileName[|c.fileName| - |base|..]
      && '/' !in base
      && CallerTag(Some(c)) == "[ " + base + " ] "
           + (if c.functionName == "<module>" then "[ module ] " else "[ " + c.functionName + " ] ")
  {
    AfterLastIsSuffix(c.fileName, '/');
  }

  /** The log line starts with the stamp, ends with the message and one newline, and contains the message. */
  lemma LogLineHoldsMessage(ts: string, caller: Option<Caller>, msg: string)
    ensures var line := LogLine(ts, CallerTag(caller), msg);
      && Stamp(ts) + " " <= line
      && line[|line| - |msg| - 1..] == msg + "\n"
      && Contains(line, msg)
  {
    var line := LogLine(ts, CallerTag(caller), msg);
    assert line == Stamp(ts) + " " + CallerTag(caller) + msg + "\n";
    ContainsMiddle(Stamp(ts) + " " + CallerTag(caller), msg, "\n");
  }

  /** The modules injected into `Console`, top decorator first. */
  const ConsoleModules: seq<string> := ["definitions", "datetime", "inspect", "sys", "os"]

  lemma ConsoleModulesUndotted(env: Injection.Resolver)
    requires forall m :: m in ConsoleModules ==> m in env
    ensures forall i :: 0 <= i < |ConsoleModules| ==> '.' !in ConsoleModules[i] && ConsoleModules[i] in env
  {
  }

  lemma ConsoleModuleValues(env: Injection.Resolver)
    requires forall m :: m in ConsoleModules ==> m in env
    ensures seq(5, i requires 0 <= i < 5 => env[ConsoleModules[i]])
         == [env["definitions"], env["datetime"], env["inspect"], env["sys"], env["os"]]
  {
  }

  /**
   * Constructing the decorated `Console` passes `definitions, datetime, inspect,
   * sys, os` in that order after the caller's arguments, which is the order of
   * the parameters of `__init__`.
   */
  lemma ConsoleReceivesModulesInOrder(init: Injection.Callable, env: Injection.Resolver,
                                      args: seq<Injection.Value>, kwargs: map<string, Injection.Value>)
    requires forall m :: m in ConsoleModules ==> m in env
    ensures Injection.Stack(Injection.PlainDecorators(ConsoleModules), init)(env, args, kwargs)
         == init(env, args + [env["definitions"], env["datetime"], env["inspect"], env["sys"], env["os"]], kwargs)
  {
    ConsoleModulesUndotted(env);
    ConsoleModuleValues(env);
    Injection.StackedModules(ConsoleModules, init, env, args, kwargs);
  }

  class Console {
    /** `_verbose`. */
    var verbose: bool
    /** `definitions.INFO_LOG` and `definitions.ERR_LOG`. */
    var infoLog: string
    var errLog: string
    /** The file system `os` and `open` act on. */
    var fs: FileSystem
    /** Everything written so far to `sys.stdout` and `sys.stderr`. */
    var stdout: string
    var stderr: string

    /** The two log paths are two different files. */
    predicate Valid()
      reads this
    {
      infoLog != errLog
    }

    /** The assignments of `__init__`; `New` adds the boot that `__init__` ends with. */
    constructor Init(root: string, verbose: bool, fs: FileSystem, stdout: string, stderr: string)
      ensures Valid()
      ensures this.verbose == verbose
      ensures infoLog == Definitions.InfoLog(root) && errLog == Definitions.ErrLog(root)
      ensures this.fs == fs && this.stdout == stdout && this.stderr == stderr
    {
      this.verbose := verbose;
      infoLog := Definitions.InfoLog(root);
      errLog := Definitions.ErrLog(root);
      this.fs := fs;
      this.stdout := stdout;
      this.stderr := stderr;
      Definitions.LogPathsLayout(root);
    }

    /** `Console(verbose=...)`: initialise, then boot; `r` is the exception the boot let escape. */
    static method New(root: string, verbose: bool, fs: FileSystem, stdout: string, stderr: string, ts: string)
      returns (c: Console, r: Option<Escape>)
      ensures fresh(c) && c.Valid() && c.verbose == verbose
      ensures c.infoLog == Definitions.InfoLog(root) && c.errLog == Definitions.ErrLog(root)
      ensures r.None? <==> BootOk(fs, c.infoLog, c.errLog)
      ensures r.None? ==> c.fs.Exists(c.infoLog) && c.fs.Exists(c.errLog)
      ensures c.fs == BootState(fs, c.infoLog, c.errLog)
      ensures c.stdout == stdout + (if verbose then BootNotes(fs, c.infoLog, c.errLog, ts) else "")
      ensures c.stderr == stderr
    {
      c := new Console.Init(root, verbose, fs, stdout, stderr);
      r := c.Boot(ts);
      if r.None? {
        BootCreatesMissingLogs(fs, c.infoLog, c.errLog);
      }
    }

    /** `__sys_print__`: a note on stdout, only when verbose. */
    method SysPrint(msg: string, ts: string)
      modifies this`stdout
      ensures stdout == old(stdout) + (if verbose then Note(ts, msg) else "")
    {
      if verbose {
        stdout := stdout + Note(ts, msg);
      }
    }

    /**
     * `__sys_err__`: a note on stderr when verbose or critical. Handed an exception
     * object instead of a text, building the line raises `TypeError` and nothing is written.
     */
    method SysErr(msg: Message, critical: bool, ts: string) returns (r: Option<Escape>)
      modifies this`stderr
      ensures r.Some? <==> (verbose || critical) && msg.Object?
      ensures r.Some? ==> r.value == TypeError(msg.typeName)
      ensures stderr == old(stderr) + (if (verbose || critical) && msg.Plain? then Note(ts, msg.text) else "")
    {
      r := None;
      if verbose && !critical {
        r := WriteErr(msg, ts);
      } else if critical {
        r := WriteErr(msg, ts);
      }
    }

    /** The `sys.stderr.write(cur_time + " " + tag + " " + msg + "\n")` both branches of `__sys_err__` run. */
    method WriteErr(msg: Message, ts: string) returns (r: Option<Escape>)
      modifies this`stderr
      ensures r.Some? <==> msg.Object?
      ensures r.Some? ==> r.value == TypeError(msg.typeName)
      ensures stderr == old(stderr) + (if msg.Plain? then Note(ts, msg.text) else "")
    {
      match msg
      case Plain(text) =>
        stderr := stderr + Note(ts, text);
        r := None;
      case Object(typeName) =>
        r := Some(TypeError(typeName));
    }

    /**
     * One `if not exists: try open(p, "w+") ... finally tmp_file.close()` block of
     * `__boot__`. When `open` fails, the handler hands the exception to
     * `__sys_err__` (which raises `TypeError`), and the `finally` clause then
     * raises `UnboundLocalError` on `tmp_file`, which is what escapes.
     */
    method EnsureLog(p: string, kind: string, ts: string) returns (r: Option<Escape>)
      modifies this`fs, this`stdout, this`stderr
      ensures r.None? <==> EnsureFile(old(fs), p).Ok?
      ensures r.Some? ==> r.value == UnboundLocalError("tmp_file")
      ensures fs == (if r.None? then EnsureFile(old(fs), p).value else old(fs))
      ensures stdout == old(stdout) + (if verbose then EnsureNotes(old(fs), p, kind, ts) else "")
      ensures stderr == old(stderr)
    {
      r := None;
      if !fs.Exists(p) {
        SysPrint("creating " + kind + " log...", ts);
        match fs.Create(p)
        case Ok(after) =>
          fs := after;
          SysPrint(kind + " log created", ts);
        case Err(e) =>
          var _ := SysErr(Object(TypeName(e)), true, ts);
          r := Some(UnboundLocalError("tmp_file"));
      }
    }

    /**
     * `__boot__`: creates each missing log file empty, info log first. The final
     * "failed to boot" note is unreachable: a failed creation raises before it.
     */
    method Boot(ts: string) returns (r: Option<Escape>)
      modifies this`fs, this`stdout, this`stderr
      ensures r.None? <==> BootOk(old(fs), infoLog, errLog)
      ensures r.Some? ==> r.value == UnboundLocalError("tmp_file")
      ensures fs == BootState(old(fs), infoLog, errLog)
      ensures stdout == old(stdout) + (if verbose then BootNotes(old(fs), infoLog, errLog, ts) else "")
      ensures stderr == old(stderr)
    {
      ghost var fs0, out0 := fs, stdout;
      ghost var head := Note(ts, "booting logger...") + EnsureNotes(fs0, infoLog, "info", ts);
      SysPrint("booting logger...", ts);
      r := EnsureLog(infoLog, "info", ts);
      AppendAssociates(out0, Note(ts, "booting logger..."), EnsureNotes(fs0, infoLog, "info", ts));
      if r.Some? {
        return;
      }
      ghost var fs1 := fs;
      ghost var tail := EnsureNotes(fs1, errLog, "error", ts);
      r := EnsureLog(errLog, "error", ts);
      AppendAssociates(out0, head, tail);
      if r.Some? {
        return;
      }
      SysPrint("successfully booted", ts);
      AppendAssociates(out0, head + tail, Note(ts, "successfully booted"));
      AppendAssociates(head, tail, Note(ts, "successfully booted"));
    }

    /**
     * `log`: appends the line to the error log when `isErr`, else to the info log,
     * after echoing it to stderr or stdout when verbose or critical. A failed caller
     * lookup leaves the tag empty and, when verbose, notes it on stderr. A failed
     * append raises `TypeError` (the handler adds a string and an exception).
     */
    method Log(msg: string, isErr: bool, critical: bool, ts: string, caller: Option<Caller>)
      returns (r: Option<Escape>)
      modifies this`fs, this`stdout, this`stderr
      ensures var data := LogLine(ts, CallerTag(caller), msg);
        var target := if isErr then errLog else infoLog;
        && (r.None? <==> old(fs).Append(target, data).Ok?)
        && (r.Some? ==> r.value.TypeError?)
        && fs == (if r.None? then old(fs).Append(target, data).value else old(fs))
        && stdout == old(stdout) + (if !isErr && (verbose || critical) then data else "")
        && stderr == old(stderr)
             + (if caller.None? && verbose then Note(ts, "could not get log caller details!") else "")
             + (if isErr && (verbose || critical) then data else "")
    {
      var tag := CallerTag(caller);
      if caller.None? {
        var _ := SysErr(Plain("could not get log caller details!"), false, ts);
      }
      var data := LogLine(ts, tag, msg);
      var appended: Result<FileSystem, FsError>;
      if isErr {
        if verbose || critical {
          stderr := stderr + data;
        }
        appended := fs.Append(errLog, data);
      } else {
        if verbose || critical {
          stdout := stdout + data;
        }
        appended := fs.Append(infoLog, data);
      }
      match appended
      case Ok(after) =>
        fs := after;
        r := None;
      case Err(e) =>
        r := Some(TypeError(TypeName(e)));
    }

    /**
     * `clear_logs`: removes the info log, then the error log, then reboots. Every
     * failure reaches the handler, which hands the exception to `__sys_err__` as
     * critical; that raises `TypeError`, so nothing reaches stderr.
     */
    method ClearLogs(ts: string) returns (r: Option<Escape>)
      modifies this`fs, this`stdout, this`stderr
      ensures r.None? <==> ClearOk(old(fs), infoLog, errLog)
      ensures r.Some? ==> r.value.TypeError?
      ensures fs == ClearState(old(fs), infoLog, errLog)
      ensures stdout == old(stdout) + (if verbose then ClearNotes(old(fs), infoLog, errLog, ts) else "")
      ensures stderr == old(stderr)
    {
      var removed := fs.Remove(infoLog);
      if removed.Err? {
        r := SysErr(Object(TypeName(removed.error)), true, ts);
        return;
      }
      fs := removed.value;
      removed := fs.Remove(errLog);
      if removed.Err? {
        r := SysErr(Object(TypeName(removed.error)), true, ts);
        return;
      }
      fs := removed.value;
      r := Reboot(ts);
    }

    /** The last two steps of `clear_logs`' `try` block and its handler. */
    method Reboot(ts: string) returns (r: Option<Escape>)
      modifies this`fs, this`stdout, this`stderr
      ensures r.None? <==> BootOk(old(fs), infoLog, errLog)
      ensures r.Some? ==> r.value == TypeError("UnboundLocalError")
      ensures fs == BootState(old(fs), infoLog, errLog)
      ensures stdout == old(stdout) + (if verbose then Note(ts, "logs cleared. rebooting console...")
                                                       + BootNotes(old(fs), infoLog, errLog, ts) else "")
      ensures stderr == old(stderr)
    {
      ghost var out0 := stdout;
      SysPrint("logs cleared. rebooting console...", ts);
      var booted := Boot(ts);
      AppendAssociates(out0, Note(ts, "logs cleared. rebooting console..."), BootNotes(old(fs), infoLog, errLog, ts));
      r := None;
      if booted.Some? {
        r := SysErr(Object("UnboundLocalError"), true, ts);
      }
    }
  }

  /**
   * `clear_logs()` followed by `log(msg)` leaves the info log holding exactly the
   * one line that `log` wrote.
   */
  method ClearThenLog(c: Console, msg: string, ts: string, caller: Option<Caller>)
    requires c.Valid() && c.fs.Consistent()
    requires c.infoLog in c.fs.files && c.errLog in c.fs.files
    modifies c
    ensures c.infoLog in c.fs.files && c.fs.files[c.infoLog] == LogLine(ts, CallerTag(caller), msg)
    ensures c.errLog in c.fs.files && c.fs.files[c.errLog] == ""
  {
    ClearLeavesEmptyLogs(c.fs, c.infoLog, c.errLog);
    var cleared := c.ClearLogs(ts);
    var logged := c.Log(msg, false, false, ts, caller);
  }
}
