/**
 * The project's resource paths and their lookup by name. `ROOT_DIR` is the
 * directory of the definitions file; the model takes it as the parameter `root`.
 */
module Definitions {
  import opened Results
  import opened Text
  import opened Files

  /** `LOG`: the log directory, `ROOT_DIR` joined with "logs/". */
  function LogDir(root: string): string
  {
    PathJoin(root, "logs/")
  }

  /** `ERR_LOG`: the error log inside `LOG`. */
  function ErrLog(root: string): string
  {
    PathJoin(LogDir(root), "errors.log")
  }

  /** `INFO_LOG`: the info log inside `LOG`. */
  function InfoLog(root: string): string
  {
    PathJoin(LogDir(root), "info.log")
  }

  /**
   * `LOG` lies under `ROOT_DIR`, both log files lie directly in `LOG`, they are
   * two different files, and their common directory is `ROOT_DIR/logs`.
   */
  lemma LogPathsLayout(root: string)
    ensures root <= LogDir(root)
    ensures LogDir(root) == PathJoin(root, "logs") + "/"
    ensures ErrLog(root) == LogDir(root) + "errors.log"
    ensures InfoLog(root) == LogDir(root) + "info.log"
    ensures ErrLog(root) != InfoLog(root)
    ensures Dirname(ErrLog(root)) == PathJoin(root, "logs")
    ensures Dirname(InfoLog(root)) == PathJoin(root, "logs")
  {
    var dir := PathJoin(root, "logs");
    assert LogDir(root) == dir + "/";
    assert dir + "/" + "errors.log" == LogDir(root) + "errors.log";
    assert dir + "/" + "info.log" == LogDir(root) + "info.log";
    DirnameOfChild(dir, "errors.log");
    DirnameOfChild(dir, "info.log");
    assert |ErrLog(root)| != |InfoLog(root)|;
  }

  /** `get_resource(resource_name)`; the error is the message of the exception raised. */
  function GetResource(root: string, resourceName: Option<string>): Result<string, string>
  {
    if resourceName.None? then Err("resource_name cannot be None")
    else
      var name := Lower(resourceName.value);
      if name == "root" then Ok(root)
      else if name == "log" then Ok(LogDir(root))
      else if name == "error log" then Ok(ErrLog(root))
      else if name == "info log" then Ok(InfoLog(root))
      else Err("resource " + name + " not found")
  }

  /** The lookup ignores case: a name and its lower-case form find the same resource. */
  lemma GetResourceIgnoresCase(root: string, name: string)
    ensures GetResource(root, Some(name)) == GetResource(root, Some(Lower(name)))
  {
    LowerIsLower(name);
  }

  /**
   * The four names map to the four paths; every other name fails with a message
   * naming it in lower case; a missing name fails.
   */
  lemma GetResourceTable(root: string, name: string)
    ensures GetResource(root, None).Err?
    ensures Lower(name) == "root" ==> GetResource(root, Some(name)) == Ok(root)
    ensures Lower(name) == "log" ==> GetResource(root, Some(name)) == Ok(LogDir(root))
    ensures Lower(name) == "error log" ==> GetResource(root, Some(name)) == Ok(ErrLog(root))
    ensures Lower(name) == "info log" ==> GetResource(root, Some(name)) == Ok(InfoLog(root))
    ensures GetResource(root, Some(name)).Ok? <==> Lower(name) in {"root", "log", "error log", "info log"}
    ensures GetResource(root, Some(name)).Err? ==>
      Contains(GetResource(root, Some(name)).error, Lower(name))
  {
    if GetResource(root, Some(name)).Err? {
      ContainsMiddle("resource ", Lower(name), " not found");
    }
  }
}
