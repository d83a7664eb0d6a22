/**
 * `inject(module, attrib)`: a decorator factory that, on every call of the
 * decorated function, imports `module`, optionally narrows it to its attribute
 * `attrib`, and passes the result as one extra trailing positional argument.
 *
 * The import machinery is replaced by a `Resolver`: the modules importable at the
 * moment of a call. A decorated function is a `Callable` of that resolver, the
 * positional arguments and the keyword arguments.
 */
module Injection {
  import opened Results
  import opened Text

  /** A Python object as the injector sees it: its name and its attributes. */
  datatype Value = Value(name: string, attrs: map<string, Value>)

  /** The modules `__import__` can load at the moment of a call, by dotted name. */
  type Resolver = map<string, Value>

  /** The exceptions the injector raises, and any exception a called function raises. */
  datatype Exception =
    | InjectionKeyError(message: string)
    | ImportError(message: string)
    | AttributeError(message: string)
    | Other(message: string)

  /** What a call does: return a value or raise. */
  datatype Outcome = Returned(value: Value) | Raised(exception: Exception)

  /** A function or class as called from Python: resolver at call time, `*args`, `**kwargs`. */
  type Callable = (Resolver, seq<Value>, map<string, Value>) -> Outcome

  /** The decorator `inject(module, attrib)` returns, with its two parameters captured. */
  datatype Decorator = Decorator(moduleName: string, attrib: Option<string>)

  /** `inject(module, attrib)`: refuses a missing module name before anything is decorated. */
  function Inject(moduleName: Option<string>, attrib: Option<string>): Result<Decorator, Exception>
  {
    if moduleName.None? then Err(InjectionKeyError("injection missing key: module!"))
    else Ok(Decorator(moduleName.value, attrib))
  }

  /** The top-level package of a dotted module name, which is what `__import__` returns. */
  function TopLevel(name: string): string
  {
    BeforeFirst(name, '.')
  }

  /** `__import__(name)`; the error is the message of the `ImportError` raised. */
  function ImportModule(env: Resolver, name: string): Result<Value, string>
  {
    if TopLevel(name) !in env then Err("No module named '" + TopLevel(name) + "'")
    else if name !in env then Err("No module named '" + name + "'")
    else Ok(env[TopLevel(name)])
  }

  /** How `format` prints an optional attribute name. */
  function AttribText(attrib: Option<string>): string
  {
    if attrib.None? then "None" else attrib.value
  }

  /** The message of the `ImportError` that `inner_wrapper` raises when the import fails. */
  function ImportFailure(moduleName: string, attrib: Option<string>, detail: string): string
  {
    "[ inject ] could not inject module: " + moduleName
      + " with attribute: " + AttribText(attrib) + " , as:\n" + detail
  }

  /** The message names both the module and the attribute. */
  lemma ImportFailureNamesBoth(moduleName: string, attrib: Option<string>, detail: string)
    ensures Contains(ImportFailure(moduleName, attrib, detail), moduleName)
    ensures Contains(ImportFailure(moduleName, attrib, detail), AttribText(attrib))
  {
    var before := "[ inject ] could not inject module: ";
    var between := " with attribute: ";
    var after := " , as:\n" + detail;
    var message := ImportFailure(moduleName, attrib, detail);
    assert message == before + moduleName + (between + AttribText(attrib) + after);
    ContainsMiddle(before, moduleName, between + AttribText(attrib) + after);
    assert message == (before + moduleName + between) + AttribText(attrib) + after;
    ContainsMiddle(before + moduleName + between, AttribText(attrib), after);
  }

  /** The import and the optional `getattr` that `inner_wrapper` performs on each call. */
  function Resolve(env: Resolver, d: Decorator): Result<Value, Exception>
  {
    match ImportModule(env, d.moduleName)
    case Err(detail) => Err(ImportError(ImportFailure(d.moduleName, d.attrib, detail)))
    case Ok(m) =>
      if d.attrib.None? then Ok(m)
      else if d.attrib.value in m.attrs then Ok(m.attrs[d.attrib.value])
      else Err(AttributeError("module '" + m.name + "' has no attribute '" + d.attrib.value + "'"))
  }

  /** `inner_wrapper(*args, **kwargs)`: resolve, then call `f` with the value appended. */
  function Call(d: Decorator, f: Callable, env: Resolver, args: seq<Value>, kwargs: map<string, Value>): Outcome
  {
    match Resolve(env, d)
    case Err(e) => Raised(e)
    case Ok(v) => f(env, args + [v], kwargs)
  }

  /** `wrapper(func)`: the decorated function; nothing is resolved until it is called. */
  function Wrap(d: Decorator, f: Callable): Callable
  {
    (env: Resolver, args: seq<Value>, kwargs: map<string, Value>) => Call(d, f, env, args, kwargs)
  }

  /** Decorators stacked on `f`, listed top to bottom as written: `ds[0]` is the outermost. */
  function Stack(ds: seq<Decorator>, f: Callable): Callable
  {
    if ds == [] then f else Wrap(ds[0], Stack(ds[1..], f))
  }

  /** The values a stack of decorators resolves, outermost first. */
  function Resolved(env: Resolver, ds: seq<Decorator>): seq<Value>
    requires forall i :: 0 <= i < |ds| ==> Resolve(env, ds[i]).Ok?
  {
    seq(|ds|, i requires 0 <= i < |ds| => Resolve(env, ds[i]).value)
  }

  /** `inject()` without a module raises `InjectionKeyError` at once; otherwise it captures both names. */
  lemma InjectChecksModuleEagerly(moduleName: Option<string>, attrib: Option<string>)
    ensures Inject(moduleName, attrib).Err? <==> moduleName.None?
    ensures Inject(moduleName, attrib).Err? ==> Inject(moduleName, attrib).error.InjectionKeyError?
    ensures Inject(moduleName, attrib).Ok? ==>
      Inject(moduleName, attrib).value.moduleName == moduleName.value && Inject(moduleName, attrib).value.attrib == attrib
  {
  }

  /**
   * Resolution succeeds exactly when the module imports and, if an attribute is
   * named, the module has it; the value is the top-level module, or that attribute.
   */
  lemma ResolveMeaning(env: Resolver, d: Decorator)
    ensures Resolve(env, d).Ok? <==>
      && d.moduleName in env && TopLevel(d.moduleName) in env
      && (d.attrib.Some? ==> d.attrib.value in env[TopLevel(d.moduleName)].attrs)
    ensures Resolve(env, d).Ok? && d.attrib.None? ==>
      Resolve(env, d).value == env[TopLevel(d.moduleName)]
    ensures Resolve(env, d).Ok? && d.attrib.Some? ==>
      Resolve(env, d).value == env[TopLevel(d.moduleName)].attrs[d.attrib.value]
  {
  }

  /** `__import__` of an undotted name returns that very module. */
  lemma ImportUndotted(env: Resolver, name: string)
    requires '.' !in name && name in env
    ensures ImportModule(env, name) == Ok(env[name])
  {
    BeforeFirstIsPrefix(name, '.');
  }

  /** A plain decorator on an undotted module name resolves to that module. */
  lemma ResolveUndotted(env: Resolver, name: string)
    requires '.' !in name && name in env
    ensures Resolve(env, Decorator(name, None)) == Ok(env[name])
  {
    ImportUndotted(env, name);
  }

  /**
   * On a successful resolution `f` is called with the original positional
   * arguments plus exactly one more, the keyword arguments unchanged, and its
   * outcome is returned unchanged.
   */
  lemma WrappedCallAppendsOne(d: Decorator, f: Callable, env: Resolver, args: seq<Value>, kwargs: map<string, Value>)
    requires Resolve(env, d).Ok?
    ensures Wrap(d, f)(env, args, kwargs) == f(env, args + [Resolve(env, d).value], kwargs)
  {
  }

  /**
   * When resolution fails the wrapped function is never called: the outcome is the
   * resolution error whatever `f` is.
   */
  lemma FailedResolutionSkipsCall(d: Decorator, f: Callable, g: Callable, env: Resolver,
                                  args: seq<Value>, kwargs: map<string, Value>)
    requires Resolve(env, d).Err?
    ensures Wrap(d, f)(env, args, kwargs) == Raised(Resolve(env, d).error)
    ensures Wrap(d, f)(env, args, kwargs) == Wrap(d, g)(env, args, kwargs)
  {
  }

  /** A failed import raises `ImportError` whose message names both the module and the attribute. */
  lemma ImportErrorNamesBoth(env: Resolver, d: Decorator)
    requires ImportModule(env, d.moduleName).Err?
    ensures Resolve(env, d).Err? && Resolve(env, d).error.ImportError?
    ensures Contains(Resolve(env, d).error.message, d.moduleName)
    ensures Contains(Resolve(env, d).error.message, AttribText(d.attrib))
  {
    ImportFailureNamesBoth(d.moduleName, d.attrib, ImportModule(env, d.moduleName).error);
  }

  /** A missing attribute is not rewrapped: the `getattr` error escapes as `AttributeError`. */
  lemma MissingAttributeEscapes(env: Resolver, d: Decorator)
    requires ImportModule(env, d.moduleName).Ok?
    requires d.attrib.Some? && d.attrib.value !in ImportModule(env, d.moduleName).value.attrs
    ensures Resolve(env, d).Err? && Resolve(env, d).error.AttributeError?
  {
  }

  /**
   * Resolution happens at call time: the same decorated function, called after the
   * module has been replaced by `v`, receives `v`.
   */
  lemma ResolvedAtCallTime(d: Decorator, f: Callable, env: Resolver, v: Value,
                           args: seq<Value>, kwargs: map<string, Value>)
    requires d.attrib.None? && '.' !in d.moduleName
    ensures Wrap(d, f)(env[d.moduleName := v], args, kwargs) == f(env[d.moduleName := v], args + [v], kwargs)
  {
    ImportUndotted(env[d.moduleName := v], d.moduleName);
  }

  /**
   * Stacked decorators hand over their values outermost first: with `inject(A)`
   * written above `inject(B)`, `f` receives the value of A and then that of B
   * after the caller's own arguments.
   */
  lemma {:induction false} StackedOrder(ds: seq<Decorator>, f: Callable, env: Resolver,
                                        args: seq<Value>, kwargs: map<string, Value>)
    requires forall i :: 0 <= i < |ds| ==> Resolve(env, ds[i]).Ok?
    ensures Stack(ds, f)(env, args, kwargs) == f(env, args + Resolved(env, ds), kwargs)
    decreases |ds|
  {
    if ds == [] {
      assert args + Resolved(env, ds) == args;
    } else {
      var v := Resolve(env, ds[0]).value;
      StackedOrder(ds[1..], f, env, args + [v], kwargs);
      assert Resolved(env, ds) == [v] + Resolved(env, ds[1..]);
      assert args + [v] + Resolved(env, ds[1..]) == args + Resolved(env, ds);
    }
  }

  /** Decorators `inject(name)` without attributes, one per name, top to bottom. */
  function PlainDecorators(names: seq<string>): seq<Decorator>
  {
    seq(|names|, i requires 0 <= i < |names| => Decorator(names[i], None))
  }

  /** Stacked `inject(name)` decorators on undotted names pass those modules, top one first. */
  lemma StackedModules(names: seq<string>, f: Callable, env: Resolver,
                       args: seq<Value>, kwargs: map<string, Value>)
    requires forall i :: 0 <= i < |names| ==> '.' !in names[i] && names[i] in env
    ensures Stack(PlainDecorators(names), f)(env, args, kwargs)
         == f(env, args + seq(|names|, i requires 0 <= i < |names| => env[names[i]]), kwargs)
  {
    var ds := PlainDecorators(names);
    forall i | 0 <= i < |ds| ensures Resolve(env, ds[i]) == Ok(env[names[i]]) {
      ResolveUndotted(env, names[i]);
    }
    StackedOrder(ds, f, env, args, kwargs);
    assert Resolved(env, ds) == seq(|names|, i requires 0 <= i < |names| => env[names[i]]);
  }

  /**
   * In a stack, the outermost decorator that fails decides the outcome, and the
   * decorated function is not called.
   */
  lemma {:induction false} StackedFailure(ds: seq<Decorator>, k: nat, f: Callable, g: Callable, env: Resolver,
                                          args: seq<Value>, kwargs: map<string, Value>)
    requires k < |ds| && Resolve(env, ds[k]).Err?
    requires forall i :: 0 <= i < k ==> Resolve(env, ds[i]).Ok?
    ensures Stack(ds, f)(env, args, kwargs) == Raised(Resolve(env, ds[k]).error)
    ensures Stack(ds, f)(env, args, kwargs) == Stack(ds, g)(env, args, kwargs)
    decreases k
  {
    if k > 0 {
      var v := Resolve(env, ds[0]).value;
      StackedFailure(ds[1..], k - 1, f, g, env, args + [v], kwargs);
    }
  }
}
