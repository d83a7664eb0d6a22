/**
 * The file system as the logger and the setup scripts see it: which paths are
 * regular files (with their text), which are directories, `posixpath.join`,
 * `os.path.dirname`, `os.path.exists`/`isdir`/`isfile`, `open(p, "w+")`,
 * `open(p, "a+").write(data)` and `os.remove`.
 */
module Files {
  import opened Results

  /** `os.path.join(a, b)` on POSIX: an absolute `b` replaces `a`; otherwise one '/' separates them. */
  function PathJoin(a: string, b: string): string
  {
    if |b| > 0 && b[0] == '/' then b
    else if a == [] || a[|a| - 1] == '/' then a + b
    else a + "/" + b
  }

  /** The directory part of a path: everything before its last '/'. */
  function Dirname(p: string): string
    decreases |p|
  {
    if p == [] then []
    else if p[|p| - 1] == '/' then p[..|p| - 1]
    else Dirname(p[..|p| - 1])
  }

  /** The directory of `d/name` is `d` when `name` has no '/'. */
  lemma {:induction false} DirnameOfChild(d: string, name: string)
    requires '/' !in name
    ensures Dirname(d + "/" + name) == d
    decreases |name|
  {
    var p := d + "/" + name;
    if name == [] {
      assert p[..|p| - 1] == d;
    } else {
      var shorter := name[..|name| - 1];
      assert p[|p| - 1] == name[|name| - 1];
      assert p[..|p| - 1] == d + "/" + shorter;
      DirnameOfChild(d, shorter);
    }
  }

  /** Why an `open` or `os.remove` fails: `FileNotFoundError` or `IsADirectoryError`. */
  datatype FsError = NotFound(path: string) | IsADirectory(path: string)

  datatype FileSystem = FileSystem(files: map<string, string>, dirs: set<string>) {

    /** `os.path.exists(p)`. */
    predicate Exists(p: string)
    {
      p in files || p in dirs
    }

    /** `os.path.isfile(p)`. */
    predicate IsFile(p: string)
    {
      p in files
    }

    /** `os.path.isdir(p)`. */
    predicate IsDir(p: string)
    {
      p in dirs
    }

    /** What every real file system satisfies: no path is both, and every file sits in a directory. */
    ghost predicate Consistent()
    {
      && files.Keys !! dirs
      && forall p :: p in files ==> Dirname(p) in dirs
    }

    /** `open(p, "w+")`: truncates or creates the file `p`. */
    function Create(p: string): Result<FileSystem, FsError>
    {
      if p in dirs then Err(IsADirectory(p))
      else if p in files || Dirname(p) in dirs then Ok(this.(files := files[p := ""]))
      else Err(NotFound(p))
    }

    /** `open(p, "a+")` followed by `write(data)`: creates the file if missing, then appends. */
    function Append(p: string, data: string): Result<FileSystem, FsError>
    {
      if p in dirs then Err(IsADirectory(p))
      else if p in files then Ok(this.(files := files[p := files[p] + data]))
      else if Dirname(p) in dirs then Ok(this.(files := files[p := data]))
      else Err(NotFound(p))
    }

    /** `os.remove(p)`. */
    function Remove(p: string): Result<FileSystem, FsError>
    {
      if p in files then Ok(this.(files := files - {p}))
      else if p in dirs then Err(IsADirectory(p))
      else Err(NotFound(p))
    }
  }

  /**
   * Appending to a file that is not a directory and whose directory exists succeeds;
   * the file then holds its old text (none if it was missing) followed by `data`,
   * and no other path changes.
   */
  lemma AppendAddsAtEnd(fs: FileSystem, p: string, data: string)
    requires fs.Consistent()
    ensures fs.Append(p, data).Ok? <==> p !in fs.dirs && Dirname(p) in fs.dirs
    ensures fs.Append(p, data).Ok? ==>
      var after := fs.Append(p, data).value;
      && after.dirs == fs.dirs
      && after.files.Keys == fs.files.Keys + {p}
      && after.files[p] == (if p in fs.files then fs.files[p] else "") + data
      && (forall q :: q in fs.files && q != p ==> after.files[q] == fs.files[q])
  {
  }

  /** Creating, appending and removing keep a consistent file system consistent. */
  lemma {:induction false} OperationsKeepConsistency(fs: FileSystem, p: string, data: string)
    requires fs.Consistent()
    ensures fs.Create(p).Ok? ==> fs.Create(p).value.Consistent()
    ensures fs.Append(p, data).Ok? ==> fs.Append(p, data).value.Consistent()
    ensures fs.Remove(p).Ok? ==> fs.Remove(p).value.Consistent()
  {
    if fs.Create(p).Ok? {
      var after := fs.Create(p).value;
      assert p !in fs.dirs && Dirname(p) in fs.dirs;
      forall q | q in after.files ensures Dirname(q) in after.dirs {
        if q != p { assert q in fs.files; }
      }
    }
    if fs.Append(p, data).Ok? {
      var after := fs.Append(p, data).value;
      assert p !in fs.dirs && Dirname(p) in fs.dirs;
      forall q | q in after.files ensures Dirname(q) in after.dirs {
        if q != p { assert q in fs.files; }
      }
    }
  }

  /** Removing an existing file and creating it again leaves it empty and changes nothing else. */
  lemma RemoveThenCreate(fs: FileSystem, p: string)
    requires fs.Consistent() && p in fs.files
    ensures fs.Remove(p).Ok?
    ensures fs.Remove(p).value.Create(p) == Ok(fs.(files := fs.files[p := ""]))
  {
    var removed := fs.Remove(p).value;
    assert removed.files[p := ""] == fs.files[p := ""];
  }
}
